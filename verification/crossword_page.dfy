/** The grid transformations of the crossword page: the normalisation of the
    cells the endpoint returns, the overlay of clue numbers on start cells,
    the single-cell input update, the correctness marking after a check, the
    score, and the across/down clue lists. The page's JSON arrays of objects
    are sequences of `PageCell` values; a field absent from an object (or
    null) is `None`. The overlay and the marking mutate cells inside
    `forEach` loops, modelled as loops that reassign a grid value. */
module CrosswordPage {
  import opened Common
  import opened GridStore
  import opened CrosswordService
  import opened CrosswordApi

  /** A grid cell as the page holds it: `letter`, `is_block`, `input`,
      `number`, `correct`. */
  datatype PageCell = PageCell(letter: Option<string>, isBlock: Option<bool>, input: Option<string>,
                               number: Option<int>, correct: Option<bool>)

  type PageGrid = seq<seq<PageCell>>

  /** Same number of rows, each row as long as before. */
  predicate SameShape(a: PageGrid, b: PageGrid) {
    |a| == |b| && forall i :: 0 <= i < |a| ==> |a[i]| == |b[i]|
  }

  /** `grid[r] && grid[r][c]` is defined. */
  predicate InPage(g: PageGrid, r: int, c: int) {
    0 <= r < |g| && 0 <= c < |g[r]|
  }

  // ---------------------------------------------------------------- normalise

  /** `{...cell, is_block: cell.is_block ?? false, input: cell.input ?? "",
      number: cell.number ?? null}`: defaults where a field is missing, every
      present field kept. */
  function NormalizeCell(c: PageCell): (n: PageCell)
    ensures n.letter == c.letter && n.number == c.number && n.correct == c.correct
    ensures n.isBlock.Some? && n.input.Some?
    ensures c.isBlock.Some? ==> n.isBlock == c.isBlock
    ensures c.isBlock.None? ==> n.isBlock == Some(false)
    ensures c.input.Some? ==> n.input == c.input
    ensures c.input.None? ==> n.input == Some("")
  {
    c.(isBlock := Some(c.isBlock.GetOr(false)), input := Some(c.input.GetOr("")))
  }

  function Normalize(g: PageGrid): (r: PageGrid)
    ensures SameShape(r, g)
    ensures forall i, j :: InPage(g, i, j) ==> r[i][j] == NormalizeCell(g[i][j])
  {
    seq(|g|, i requires 0 <= i < |g| => seq(|g[i]|, j requires 0 <= j < |g[i]| => NormalizeCell(g[i][j])))
  }

  /** Normalising a normalised grid changes nothing. */
  lemma NormalizeIsIdempotent(g: PageGrid)
    ensures Normalize(Normalize(g)) == Normalize(g)
  {
    var n := Normalize(g);
    forall i | 0 <= i < |g|
      ensures Normalize(n)[i] == n[i]
    {
    }
  }

  /** A cell of the endpoint's grid as the page parses it. */
  function ParseCell(o: OutCell): PageCell {
    PageCell(o.letter, Some(o.isBlock), o.input, None, None)
  }

  function ParseGrid(out: seq<seq<OutCell>>): (g: PageGrid)
    ensures |g| == |out|
  {
    seq(|out|, i requires 0 <= i < |out| => seq(|out[i]|, j requires 0 <= j < |out[i]| => ParseCell(out[i][j])))
  }

  /** On the endpoint's grid, normalising gives every cell an empty input and
      no number, and marks exactly the blank cells as blocks. */
  lemma NormalizeServedGrid(g: Grid)
    requires IsGrid(g)
    ensures var n := Normalize(ParseGrid(RenderGrid(g)));
      |n| == |g| &&
      forall i, j :: 0 <= i < |g| && 0 <= j < |g| ==>
        |n[i]| == |g| && n[i][j].input == Some("") && n[i][j].number.None? &&
        (n[i][j].isBlock == Some(true) <==> g[i][j] == Blank) &&
        (g[i][j].Letter? ==> n[i][j].letter == Some([g[i][j].ch]))
  {
  }

  // ---------------------------------------------------------- number overlay

  /** One `forEach` step of the overlay: the word's start cell, when the grid
      has it, takes the word's number. */
  function SetNumber(g: PageGrid, w: Clue): (r: PageGrid)
    ensures SameShape(r, g)
  {
    if InPage(g, w.row, w.col) then g[w.row := g[w.row][w.col := g[w.row][w.col].(number := Some(w.number))]]
    else g
  }

  /** The overlay over the words in order. */
  function OverlayAll(g: PageGrid, ws: seq<Clue>): (r: PageGrid)
    ensures SameShape(r, g)
    decreases |ws|
  {
    if ws == [] then g else SetNumber(OverlayAll(g, ws[..|ws| - 1]), ws[|ws| - 1])
  }

  /** The number of the last word in `ws` that starts on cell (i, j). */
  function LastStart(ws: seq<Clue>, i: int, j: int): (n: Option<int>)
    ensures n.Some? ==>
      exists k :: 0 <= k < |ws| && ws[k].row == i && ws[k].col == j && ws[k].number == n.value &&
                  forall l :: k < l < |ws| ==> !(ws[l].row == i && ws[l].col == j)
    ensures n.None? ==> forall k :: 0 <= k < |ws| ==> !(ws[k].row == i && ws[k].col == j)
    decreases |ws|
  {
    if ws == [] then None
    else if ws[|ws| - 1].row == i && ws[|ws| - 1].col == j then Some(ws[|ws| - 1].number)
    else LastStart(ws[..|ws| - 1], i, j)
  }

  /** After the overlay a cell carries the number of the last word that
      starts on it, or its old number when none does; nothing else changes. */
  lemma {:induction false} OverlayAt(g: PageGrid, ws: seq<Clue>, i: int, j: int)
    requires InPage(g, i, j)
    ensures OverlayAll(g, ws)[i][j] ==
      match LastStart(ws, i, j)
      case Some(n) => g[i][j].(number := Some(n))
      case None => g[i][j]
    decreases |ws|
  {
    if ws != [] {
      OverlayAt(g, ws[..|ws| - 1], i, j);
    }
  }

  /** The clue-number loop of `load`. */
  method OverlayNumbers(grid: PageGrid, words: seq<Clue>) returns (g: PageGrid)
    ensures g == OverlayAll(grid, words)
  {
    g := grid;
    for k := 0 to |words|
      invariant g == OverlayAll(grid, words[..k])
    {
      var w := words[k];
      if 0 <= w.row < |g| && 0 <= w.col < |g[w.row]| {
        g := g[w.row := g[w.row][w.col := g[w.row][w.col].(number := Some(w.number))]];
      }
      assert words[..k + 1][..k] == words[..k];
    }
    assert words[..|words|] == words;
  }

  // -------------------------------------------------------------- updateCell

  /** `updateCell(r, c, val)`: a copy of the grid with the input of cell
      (r, c) set to val. */
  function UpdateCell(g: PageGrid, r: int, c: int, val: string): (u: PageGrid)
    ensures SameShape(u, g)
    ensures InPage(g, r, c) ==> u[r][c] == g[r][c].(input := Some(val))
    ensures forall i, j :: InPage(g, i, j) && (i, j) != (r, c) ==> u[i][j] == g[i][j]
  {
    seq(|g|, rr requires 0 <= rr < |g| =>
      seq(|g[rr]|, cc requires 0 <= cc < |g[rr]| =>
        if rr == r && cc == c then g[rr][cc].(input := Some(val)) else g[rr][cc]))
  }

  /** Updating a cell outside the grid changes nothing. */
  lemma UpdateOutsideIsIdentity(g: PageGrid, r: int, c: int, val: string)
    requires !InPage(g, r, c)
    ensures UpdateCell(g, r, c, val) == g
  {
    var u := UpdateCell(g, r, c, val);
    forall i | 0 <= i < |g|
      ensures u[i] == g[i]
    {
    }
  }

  /** Updates of two different cells commute; of the same cell, the last wins. */
  lemma UpdatesCommute(g: PageGrid, r1: int, c1: int, v1: string, r2: int, c2: int, v2: string)
    ensures (r1, c1) != (r2, c2) ==>
      UpdateCell(UpdateCell(g, r1, c1, v1), r2, c2, v2) == UpdateCell(UpdateCell(g, r2, c2, v2), r1, c1, v1)
    ensures (r1, c1) == (r2, c2) ==>
      UpdateCell(UpdateCell(g, r1, c1, v1), r2, c2, v2) == UpdateCell(g, r2, c2, v2)
  {
    var a := UpdateCell(UpdateCell(g, r1, c1, v1), r2, c2, v2);
    var b := if (r1, c1) != (r2, c2) then UpdateCell(UpdateCell(g, r2, c2, v2), r1, c1, v1)
             else UpdateCell(g, r2, c2, v2);
    forall i | 0 <= i < |g|
      ensures a[i] == b[i]
    {
    }
  }

  // ----------------------------------------------------------------- submit

  /** One entry of the check's `results`: the word number and its verdict. */
  datatype CheckResult = CheckResult(number: int, correct: bool)

  /** Writing to a property of `undefined`: the span left the grid. */
  datatype TypeError = TypeError

  /** `data.words.find(x => x.number === n)` */
  function FindByNumber(ws: seq<Clue>, n: int): (r: Option<Clue>)
    ensures r.Some? ==>
      exists k :: 0 <= k < |ws| && ws[k] == r.value && r.value.number == n &&
                  forall l :: 0 <= l < k ==> ws[l].number != n
    ensures r.None? ==> forall k :: 0 <= k < |ws| ==> ws[k].number != n
    decreases |ws|
  {
    if ws == [] then None
    else if ws[0].number == n then Some(ws[0])
    else
      var r := FindByNumber(ws[1..], n);
      assert r.Some? ==>
        exists k :: 0 <= k < |ws| && ws[k] == r.value && r.value.number == n &&
                    forall l :: 0 <= l < k ==> ws[l].number != n
      by {
        if r.Some? {
          var k :| 0 <= k < |ws[1..]| && ws[1..][k] == r.value && r.value.number == n &&
            forall l :: 0 <= l < k ==> ws[1..][l].number != n;
          assert ws[k + 1] == r.value;
          assert forall l :: 1 <= l < k + 1 ==> ws[l] == ws[1..][l - 1];
        }
      }
      r
  }

  /** Cell i of a word's span: along the row for "across", down the column
      for any other direction. */
  function SpanRow(w: Clue, i: int): int {
    if w.direction == "across" then w.row else w.row + i
  }

  function SpanCol(w: Clue, i: int): int {
    if w.direction == "across" then w.col + i else w.col
  }

  /** The word's span covers cell (a, b). */
  predicate Covered(w: Clue, a: int, b: int) {
    if w.direction == "across" then a == w.row && 0 <= b - w.col < |w.answer|
    else b == w.col && 0 <= a - w.row < |w.answer|
  }

  predicate SpanInPage(g: PageGrid, w: Clue) {
    forall i :: 0 <= i < |w.answer| ==> InPage(g, SpanRow(w, i), SpanCol(w, i))
  }

  /** The inner `forEach` from letter i on: set `correct` on each cell of the
      span, failing at the first cell the grid does not have. */
  function MarkSpan(g: PageGrid, w: Clue, i: nat, v: bool): (r: Result<PageGrid, TypeError>)
    ensures r.Ok? ==> SameShape(r.value, g)
    decreases |w.answer| - i
  {
    if i >= |w.answer| then Ok(g)
    else
      var a, b := SpanRow(w, i), SpanCol(w, i);
      if !InPage(g, a, b) then Err(TypeError)
      else MarkSpan(g[a := g[a][b := g[a][b].(correct := Some(v))]], w, i + 1, v)
  }

  /** One step of the outer `forEach`: a result with no matching word changes
      nothing; otherwise the matched word's span is marked. */
  function MarkOne(g: PageGrid, ws: seq<Clue>, res: CheckResult): (r: Result<PageGrid, TypeError>)
    ensures r.Ok? ==> SameShape(r.value, g)
  {
    match FindByNumber(ws, res.number)
    case None => Ok(g)
    case Some(w) => MarkSpan(g, w, 0, res.correct)
  }

  /** The outer `forEach` over the results, in order, stopping at the first
      error. */
  function MarkAll(g: PageGrid, ws: seq<Clue>, rs: seq<CheckResult>): (r: Result<PageGrid, TypeError>)
    ensures r.Ok? ==> SameShape(r.value, g)
    decreases |rs|
  {
    if rs == [] then Ok(g)
    else match MarkOne(g, ws, rs[0])
      case Err(e) => Err(e)
      case Ok(g') => MarkAll(g', ws, rs[1..])
  }

  /** The marking part of `submit`: the copy of the grid marked with every
      result, or the error that aborts it (the page then keeps its grid). */
  method MarkResults(grid: PageGrid, words: seq<Clue>, results: seq<CheckResult>)
    returns (r: Result<PageGrid, TypeError>)
    ensures r == MarkAll(grid, words, results)
  {
    var updated := grid;
    for k := 0 to |results|
      invariant MarkAll(grid, words, results) == MarkAll(updated, words, results[k..])
    {
      var res := results[k];
      assert results[k..][1..] == results[k + 1..];
      var word := FindByNumber(words, res.number);
      if word.None? {
        continue;
      }
      var w := word.value;
      ghost var start := updated;
      for i := 0 to |w.answer|
        invariant MarkSpan(start, w, 0, res.correct) == MarkSpan(updated, w, i, res.correct)
      {
        var a := if w.direction == "across" then w.row else w.row + i;
        var b := if w.direction == "across" then w.col + i else w.col;
        if !(0 <= a < |updated| && 0 <= b < |updated[a]|) {
          return Err(TypeError);
        }
        updated := updated[a := updated[a][b := updated[a][b].(correct := Some(res.correct))]];
      }
    }
    return Ok(updated);
  }

  /** A marked span is the word's own cells: each gets the verdict, every
      other cell and every other field is left as it was. */
  lemma {:induction false} MarkSpanAt(g: PageGrid, w: Clue, i: nat, v: bool, a: int, b: int)
    requires MarkSpan(g, w, i, v).Ok? && InPage(g, a, b)
    ensures MarkSpan(g, w, i, v).value[a][b] ==
      if Covered(w, a, b) && i <= (if w.direction == "across" then b - w.col else a - w.row)
      then g[a][b].(correct := Some(v)) else g[a][b]
    decreases |w.answer| - i
  {
    if i < |w.answer| {
      var x, y := SpanRow(w, i), SpanCol(w, i);
      var g' := g[x := g[x][y := g[x][y].(correct := Some(v))]];
      MarkSpanAt(g', w, i + 1, v, a, b);
    }
  }

  /** The marking fails exactly when some span from i on leaves the grid. */
  lemma {:induction false} MarkSpanFails(g: PageGrid, w: Clue, i: nat, v: bool)
    ensures MarkSpan(g, w, i, v).Err? <==>
      exists k :: i <= k < |w.answer| && !InPage(g, SpanRow(w, k), SpanCol(w, k))
    decreases |w.answer| - i
  {
    if i < |w.answer| {
      var x, y := SpanRow(w, i), SpanCol(w, i);
      if InPage(g, x, y) {
        var g' := g[x := g[x][y := g[x][y].(correct := Some(v))]];
        MarkSpanFails(g', w, i + 1, v);
        assert forall k :: InPage(g', SpanRow(w, k), SpanCol(w, k)) == InPage(g, SpanRow(w, k), SpanCol(w, k));
      }
    }
  }

  /** The verdict of the last result whose matched word covers (a, b). */
  function LastVerdict(ws: seq<Clue>, rs: seq<CheckResult>, a: int, b: int): Option<bool>
    decreases |rs|
  {
    if rs == [] then None
    else match LastVerdict(ws, rs[1..], a, b)
      case Some(v) => Some(v)
      case None =>
        match FindByNumber(ws, rs[0].number)
        case Some(w) => if Covered(w, a, b) then Some(rs[0].correct) else None
        case None => None
  }

  /** After a successful marking each cell's `correct` is the verdict of the
      last result whose word covers it, or its old value when none does;
      every other field is unchanged. */
  lemma {:induction false} MarkAllAt(g: PageGrid, ws: seq<Clue>, rs: seq<CheckResult>, a: int, b: int)
    requires MarkAll(g, ws, rs).Ok? && InPage(g, a, b)
    ensures MarkAll(g, ws, rs).value[a][b] ==
      match LastVerdict(ws, rs, a, b)
      case Some(v) => g[a][b].(correct := Some(v))
      case None => g[a][b]
    decreases |rs|
  {
    if rs != [] {
      var g' := MarkOne(g, ws, rs[0]).value;
      MarkAllAt(g', ws, rs[1..], a, b);
      match FindByNumber(ws, rs[0].number)
      case None =>
      case Some(w) =>
        MarkSpanAt(g, w, 0, rs[0].correct, a, b);
    }
  }

  /** The matched word of a result leaves the grid. */
  predicate Escapes(g: PageGrid, ws: seq<Clue>, res: CheckResult) {
    match FindByNumber(ws, res.number)
    case Some(w) => !SpanInPage(g, w)
    case None => false
  }

  /** `submit` throws exactly when the word of some result leaves the grid. */
  lemma {:induction false} MarkAllFails(g: PageGrid, ws: seq<Clue>, rs: seq<CheckResult>)
    ensures MarkAll(g, ws, rs).Err? <==> exists k :: 0 <= k < |rs| && Escapes(g, ws, rs[k])
    decreases |rs|
  {
    if rs != [] {
      match FindByNumber(ws, rs[0].number)
      case None =>
        MarkAllFails(g, ws, rs[1..]);
        assert forall k :: 1 <= k < |rs| ==> rs[1..][k - 1] == rs[k];
      case Some(w) =>
        MarkSpanFails(g, w, 0, rs[0].correct);
        if MarkOne(g, ws, rs[0]).Ok? {
          var g' := MarkOne(g, ws, rs[0]).value;
          MarkAllFails(g', ws, rs[1..]);
          SameShapeEscapes(g, g', ws, rs);
          assert forall k :: 1 <= k < |rs| ==> rs[1..][k - 1] == rs[k];
        }
    }
  }

  /** Whether a span leaves the grid depends only on the grid's shape. */
  lemma SameShapeEscapes(g: PageGrid, h: PageGrid, ws: seq<Clue>, rs: seq<CheckResult>)
    requires SameShape(g, h)
    ensures forall k :: 0 <= k < |rs| ==> (Escapes(g, ws, rs[k]) <==> Escapes(h, ws, rs[k]))
  {
    forall k | 0 <= k < |rs|
      ensures Escapes(g, ws, rs[k]) <==> Escapes(h, ws, rs[k])
    {
      assert forall r, c :: InPage(g, r, c) <==> InPage(h, r, c);
    }
  }

  // ------------------------------------------------------------------ score

  /** `result.results.filter(r => r.correct).length` */
  function CountCorrect(rs: seq<CheckResult>): (n: nat)
    ensures n <= |rs|
    decreases |rs|
  {
    if rs == [] then 0 else CountCorrect(rs[..|rs| - 1]) + (if rs[|rs| - 1].correct then 1 else 0)
  }

  /** Full marks exactly when every result is correct; zero exactly when none is. */
  lemma {:induction false} ScoreExtremes(rs: seq<CheckResult>)
    ensures CountCorrect(rs) == |rs| <==> forall k :: 0 <= k < |rs| ==> rs[k].correct
    ensures CountCorrect(rs) == 0 <==> forall k :: 0 <= k < |rs| ==> !rs[k].correct
    decreases |rs|
  {
    if rs != [] {
      var front := rs[..|rs| - 1];
      ScoreExtremes(front);
      assert forall k :: 0 <= k < |front| ==> front[k] == rs[k];
    }
  }

  /** The score of two batches of results is the sum of their scores. */
  lemma {:induction false} ScoreAdds(xs: seq<CheckResult>, ys: seq<CheckResult>)
    ensures CountCorrect(xs + ys) == CountCorrect(xs) + CountCorrect(ys)
    decreases |ys|
  {
    if ys != [] {
      var zs, front := xs + ys, ys[..|ys| - 1];
      assert zs[..|zs| - 1] == xs + front;
      assert zs[|zs| - 1] == ys[|ys| - 1];
      ScoreAdds(xs, front);
    } else {
      assert xs + ys == xs;
    }
  }

  // ------------------------------------------------------------- clue lists

  /** `data.words.filter(w => w.direction === d)`: the page's across list is
      `WithDirection(words, "across")` and its down list
      `WithDirection(words, "down")`. */
  function WithDirection(ws: seq<Clue>, d: string): (r: seq<Clue>)
    ensures forall k :: 0 <= k < |r| ==> r[k].direction == d
    decreases |ws|
  {
    if ws == [] then []
    else WithDirection(ws[..|ws| - 1], d) + (if ws[|ws| - 1].direction == d then [ws[|ws| - 1]] else [])
  }

  /** The filter keeps the clues of its direction in their original order:
      filtering a concatenation concatenates the filtered parts. */
  lemma {:induction false} FilterKeepsOrder(xs: seq<Clue>, ys: seq<Clue>, d: string)
    ensures WithDirection(xs + ys, d) == WithDirection(xs, d) + WithDirection(ys, d)
    decreases |ys|
  {
    if ys != [] {
      var zs, front := xs + ys, ys[..|ys| - 1];
      assert zs[..|zs| - 1] == xs + front;
      assert zs[|zs| - 1] == ys[|ys| - 1];
      FilterKeepsOrder(xs, front, d);
    } else {
      assert xs + ys == xs;
    }
  }

  /** A clue is in the filtered list exactly when it is a clue of the input
      with that direction. */
  lemma {:induction false} FilterMembership(ws: seq<Clue>, c: Clue, d: string)
    ensures c in WithDirection(ws, d) <==> c in ws && c.direction == d
    decreases |ws|
  {
    if ws != [] {
      var front := ws[..|ws| - 1];
      FilterMembership(front, c, d);
      assert ws == front + [ws[|ws| - 1]];
    }
  }

  /** When every clue runs across or down, the two lists split the clues. */
  lemma {:induction false} FiltersPartition(ws: seq<Clue>)
    requires forall k :: 0 <= k < |ws| ==> ws[k].direction == "across" || ws[k].direction == "down"
    ensures |WithDirection(ws, "across")| + |WithDirection(ws, "down")| == |ws|
    decreases |ws|
  {
    if ws != [] {
      FiltersPartition(ws[..|ws| - 1]);
    }
  }

  /** The endpoint's clue list is split completely between the two lists. */
  lemma ServedCluesPartition(words: seq<Vocabulary>)
    requires |words| > 0 && |words[0].word| <= Size
    ensures var f := Format(words); var c := Clues(f, Generate(f).placements);
      |WithDirection(c, "across")| + |WithDirection(c, "down")| == |c|
  {
    var f := Format(words);
    var c := Clues(f, Generate(f).placements);
    ClueDirectionNames();
    assert forall d: Direction :: ClueDirection(d) == "across" || ClueDirection(d) == "down";
    FiltersPartition(c);
  }
}
