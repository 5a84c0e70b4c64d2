/** The pure part of the `/crossword/today` endpoint: the empty-input guard,
    the formatting of the vocabulary rows, the call to the builder, and the
    clue list that pairs the formatted entries with the placements by
    position (`enumerate(zip(formatted, placements))`). The database query
    that picks the rows is not modelled: the rows are the input. */
module CrosswordApi {
  import opened Common
  import opened GridStore
  import opened CrosswordService

  /** The two columns of a vocabulary row the endpoint reads. */
  datatype Vocabulary = Vocabulary(word: string, definition: string)

  /** One `{number, direction, clue, answer, row, col}` entry of `words`. */
  datatype Clue = Clue(number: int, direction: string, clue: string, answer: string, row: int, col: int)

  /** The response body `{grid, words}`. */
  datatype Today = Today(grid: seq<seq<OutCell>>, words: seq<Clue>)

  datatype HttpError = HttpError(status: int, detail: string)

  /** `formatted`: the rows in query order, each word upper-cased, its
      definition as the clue. */
  function Format(words: seq<Vocabulary>): (f: seq<Entry>)
    ensures |f| == |words|
    ensures forall k :: 0 <= k < |f| ==> f[k].word == Upper(words[k].word) && f[k].clue == words[k].definition
  {
    seq(|words|, k requires 0 <= k < |words| => Entry(Upper(words[k].word), words[k].definition))
  }

  /** Every formatted word is upper-case, so formatting twice changes nothing. */
  lemma FormatIsUpper(words: seq<Vocabulary>)
    ensures forall k :: 0 <= k < |words| ==> IsUpperWord(Format(words)[k].word)
    ensures Format(seq(|words|, k requires 0 <= k < |words| => Vocabulary(Format(words)[k].word, words[k].definition))) == Format(words)
  {
    var f := Format(words);
    forall k | 0 <= k < |words|
      ensures IsUpperWord(f[k].word) && Upper(f[k].word) == f[k].word
    {
      UpperIsIdempotent(words[k].word);
    }
  }

  /** `p["direction"].lower()` */
  function ClueDirection(d: Direction): string {
    Lower(DirectionLabel(d))
  }

  /** The clue directions are exactly "across" and "down". */
  lemma ClueDirectionNames()
    ensures ClueDirection(Across) == "across" && ClueDirection(Down) == "down"
  {
    assert Lower("ACROSS") == "across";
    assert Lower("DOWN") == "down";
  }

  /** The entry the loop appends for index idx. */
  function MakeClue(idx: int, e: Entry, p: Placement): Clue {
    Clue(idx + 1, ClueDirection(p.direction), e.clue, e.word, p.row, p.col)
  }

  /** The clue list as the source builds it: entry k of `formatted` with
      placement k, numbered k + 1, as long as the shorter of the two. */
  function Clues(f: seq<Entry>, ps: seq<Placement>): (c: seq<Clue>)
    ensures |c| == Min(|f|, |ps|)
  {
    seq(Min(|f|, |ps|), k requires 0 <= k < Min(|f|, |ps|) => MakeClue(k, f[k], ps[k]))
  }

  /** `crossword_today` after the query: 404 on no rows, otherwise the
      rendered grid of the built crossword and its clue list. The builder
      needs the first word to fit across its grid. */
  method CrosswordToday(words: seq<Vocabulary>) returns (r: Result<Today, HttpError>)
    requires words == [] || |words[0].word| <= Size
    ensures r.Err? <==> words == []
    ensures r.Err? ==> r.error == HttpError(404, "No words found")
    ensures r.Ok? ==>
      var f := Format(words);
      r.value == Today(RenderGrid(Generate(f).grid), Clues(f, Generate(f).placements))
  {
    if |words| == 0 {
      return Err(HttpError(404, "No words found"));
    }
    var formatted := Format(words);
    var grid, placements := GenerateCrossword(formatted);
    var clues := AssembleClues(formatted, placements);
    return Ok(Today(grid, clues));
  }

  /** The `for idx, (w, p) in enumerate(zip(formatted, placements))` loop. */
  method AssembleClues(formatted: seq<Entry>, placements: seq<Placement>) returns (clues: seq<Clue>)
    ensures clues == Clues(formatted, placements)
  {
    clues := [];
    for idx := 0 to Min(|formatted|, |placements|)
      invariant |clues| == idx
      invariant forall k :: 0 <= k < idx ==> clues[k] == MakeClue(k, formatted[k], placements[k])
    {
      var w, p := formatted[idx], placements[idx];
      clues := clues + [Clue(idx + 1, Lower(DirectionLabel(p.direction)), w.clue, w.word, p.row, p.col)];
    }
  }

  /** The clue numbers are 1 to n, in increasing order, so no two clues share
      a number, even when their words start on the same cell. */
  lemma ClueNumbers(f: seq<Entry>, ps: seq<Placement>)
    ensures forall k :: 0 <= k < |Clues(f, ps)| ==> 1 <= Clues(f, ps)[k].number <= |Clues(f, ps)|
    ensures forall k, l :: 0 <= k < l < |Clues(f, ps)| ==> Clues(f, ps)[k].number < Clues(f, ps)[l].number
  {
  }

  /** There is one clue per placement (the builder never places more words
      than it was given), and clue k starts where placement k starts, on a
      cell of the grid that holds placement k's first letter, and runs in its
      direction. */
  lemma CluesStartOnPlacedWords(words: seq<Vocabulary>)
    requires |words| > 0 && |words[0].word| <= Size
    ensures var f := Format(words); var b := Generate(f); var c := Clues(f, b.placements);
      |c| == |b.placements| &&
      forall k :: 0 <= k < |c| ==>
        c[k].row == b.placements[k].row && c[k].col == b.placements[k].col &&
        c[k].direction == ClueDirection(b.placements[k].direction) &&
        (|b.placements[k].word| > 0 ==>
          InGrid(Size, c[k].row, c[k].col) && b.grid[c[k].row][c[k].col] == Letter(b.placements[k].word[0]))
  {
    var f := Format(words);
    var b := Generate(f);
    forall k | 0 <= k < |Clues(f, b.placements)| && |b.placements[k].word| > 0
      ensures InGrid(Size, b.placements[k].row, b.placements[k].col)
      ensures b.grid[b.placements[k].row][b.placements[k].col] == Letter(b.placements[k].word[0])
    {
      var p := b.placements[k];
      assert ReadsBack(b.grid, p.word, p.row, p.col, p.direction);
      assert RowAt(p.row, p.direction, 0) == p.row && ColAt(p.col, p.direction, 0) == p.col;
    }
  }

  /** A strictly increasing sequence of n indices below n is 0, 1, ..., n-1. */
  lemma {:induction false} IncreasingFullIsIdentity(origin: seq<nat>, n: nat)
    requires |origin| == n && forall k :: 0 <= k < n ==> origin[k] < n
    requires forall k, l :: 0 <= k < l < n ==> origin[k] < origin[l]
    ensures forall k :: 0 <= k < n ==> origin[k] == k
  {
    if n > 0 {
      var front := origin[..n - 1];
      assert origin[n - 1] == n - 1 by {
        forall k | 0 <= k < n - 1
          ensures origin[k] < origin[n - 1]
        {
        }
        LowerBoundByIndex(origin, n);
      }
      IncreasingFullIsIdentity(front, n - 1);
    }
  }

  /** In a strictly increasing sequence of naturals, entry k is at least k. */
  lemma {:induction false} LowerBoundByIndex(origin: seq<nat>, n: nat)
    requires |origin| == n
    requires forall k, l :: 0 <= k < l < n ==> origin[k] < origin[l]
    ensures forall k :: 0 <= k < n ==> origin[k] >= k
  {
    if n > 0 {
      LowerBoundByIndex(origin[..n - 1], n - 1);
      assert n - 1 == 0 || origin[n - 2] >= n - 2;
    }
  }

  /** When no word was dropped, clue k's answer and clue text belong to the
      word placed k-th. */
  lemma AnswersMatchWhenNoneDropped(words: seq<Vocabulary>)
    requires |words| > 0 && |words[0].word| <= Size
    requires |Generate(Format(words)).placements| == |words|
    ensures var f := Format(words); var b := Generate(f); var c := Clues(f, b.placements);
      |c| == |b.placements| &&
      forall k :: 0 <= k < |c| ==> c[k].answer == b.placements[k].word && c[k].clue == words[k].definition
  {
    var f := Format(words);
    var origin := Origins(f, |f|);
    IncreasingFullIsIdentity(origin, |f|);
  }

  /** As written: with one word dropped, the clue list pairs the word after
      it with the dropped word's clue and answer. The 11-letter second word
      fits nowhere on the 10 by 10 grid; the third word is placed down
      through the first, but clue 2 still carries the second word. */
  lemma DroppedWordMisalignsClues()
    ensures var words := [Vocabulary("A", "first"), Vocabulary("BBBBBBBBBBB", "second"), Vocabulary("A", "third")];
      var f := Format(words); var b := Generate(f); var c := Clues(f, b.placements);
      b.placements == [Placement("A", 5, 4, Across), Placement("A", 5, 4, Down)] &&
      |c| == 2 && c[1].answer == "BBBBBBBBBBB" && c[1].clue == "second" && c[1].answer != b.placements[1].word
  {
    var words := [Vocabulary("A", "first"), Vocabulary("BBBBBBBBBBB", "second"), Vocabulary("A", "third")];
    var f := Format(words);
    assert IsUpperWord("A") && IsUpperWord("BBBBBBBBBBB");
    UpperIsIdempotent("A");
    UpperIsIdempotent("BBBBBBBBBBB");
    assert f == [Entry("A", "first"), Entry("BBBBBBBBBBB", "second"), Entry("A", "third")];
    var b1 := BuildUpTo(f, 1);
    var p := FirstPlacement("A");
    assert p == Placement("A", 5, 4, Across);
    EmptyGridFits(Size, p.word, p.row, p.col, p.direction);
    LongWordIsDropped(b1, "BBBBBBBBBBB");
    assert BuildUpTo(f, 2) == b1;
    PlaceAt(EmptyGrid(Size), "A", 5, 4, Across, 5, 4);
    assert Crossing(p, "A", 0, 0) == Placement("A", 5, 4, Down);
    assert Fits(b1.grid, "A", 5, 4, Down);
    assert Viable(b1.grid, p, "A", 0, 0);
    assert FirstViable(b1.grid, p, "A", 0, 0) == Some((0, 0));
    assert Choose(b1.grid, b1.placements, "A", 0) == Some(Placement("A", 5, 4, Down));
    assert BuildUpTo(f, 3) == Commit(b1, Placement("A", 5, 4, Down));
  }

  /** The first entry at or after `from` whose word is w. */
  function NextWith(f: seq<Entry>, w: string, from: nat): (r: Option<nat>)
    ensures r.Some? ==> from <= r.value < |f| && f[r.value].word == w
    ensures r.Some? ==> forall i :: from <= i < r.value ==> f[i].word != w
    ensures r.None? ==> forall i :: from <= i < |f| ==> f[i].word != w
    decreases |f| - from
  {
    if from >= |f| then None
    else if f[from].word == w then Some(from)
    else NextWith(f, w, from + 1)
  }

  /** Pairs each placement, in order, with the next entry carrying its word. */
  function MatchOrigins(f: seq<Entry>, ps: seq<Placement>, from: nat): (o: seq<nat>)
    ensures |o| <= |ps|
    ensures forall k {:trigger o[k]} :: 0 <= k < |o| ==> from <= o[k] < |f| && f[o[k]].word == ps[k].word
    decreases |ps|
  {
    if ps == [] then []
    else match NextWith(f, ps[0].word, from)
      case None => []
      case Some(m) => [m] + MatchOrigins(f, ps[1..], m + 1)
  }

  /** The clue list with each placement paired with the entry it came from
      rather than with the entry at the same position. */
  function AlignedClues(f: seq<Entry>, ps: seq<Placement>): (c: seq<Clue>)
    ensures |c| <= |ps|
    ensures forall k :: 0 <= k < |c| ==>
      c[k].number == k + 1 && c[k].answer == ps[k].word &&
      c[k].row == ps[k].row && c[k].col == ps[k].col && c[k].direction == ClueDirection(ps[k].direction)
  {
    var o := MatchOrigins(f, ps, 0);
    seq(|o|, k requires 0 <= k < |o| => MakeClue(k, f[o[k]], ps[k]))
  }

  /** The greedy pairing succeeds for every placement whenever the
      placements embed, in order, into the entries at or after `from`. */
  lemma {:induction false} MatchOriginsComplete(f: seq<Entry>, ps: seq<Placement>, origin: seq<nat>, from: nat)
    requires |origin| == |ps|
    requires forall k :: 0 <= k < |origin| ==> from <= origin[k] < |f| && f[origin[k]].word == ps[k].word
    requires forall k, l :: 0 <= k < l < |origin| ==> origin[k] < origin[l]
    ensures |MatchOrigins(f, ps, from)| == |ps|
    decreases |ps|
  {
    if ps != [] {
      var m := NextWith(f, ps[0].word, from);
      assert m.Some? && m.value <= origin[0];
      MatchOriginsComplete(f, ps[1..], origin[1..], m.value + 1);
    }
  }

  /** When each origin is the first entry with its word after the previous
      one, the matching search finds exactly those origins. */
  lemma {:induction false} MatchOriginsFirstAfter(f: seq<Entry>, ps: seq<Placement>, o: seq<nat>, from: nat)
    requires Embeds(o, ps, f)
    requires o != [] ==> from <= o[0]
    requires FirstAfter(o, f, from)
    ensures MatchOrigins(f, ps, from) == o
    decreases |ps|
  {
    if ps != [] {
      NextWithFinds(f, ps[0].word, from, o[0]);
      FirstAfterTail(f, o, from);
      MatchOriginsFirstAfter(f, ps[1..], o[1..], o[0] + 1);
    }
  }

  /** The search from `from` stops at the first entry with the word. */
  lemma NextWithFinds(f: seq<Entry>, w: string, from: nat, m: nat)
    requires from <= m < |f| && f[m].word == w && NoneWith(f, w, from, m)
    ensures NextWith(f, w, from) == Some(m)
  {
  }

  /** Past the first origin, the rest are still each the first with their word. */
  lemma FirstAfterTail(f: seq<Entry>, o: seq<nat>, from: nat)
    requires o != [] && (forall k :: 0 <= k < |o| ==> o[k] < |f|) && FirstAfter(o, f, from)
    ensures NoneWith(f, f[o[0]].word, from, o[0])
    ensures FirstAfter(o[1..], f, o[0] + 1)
  {
    var t := o[1..];
    if t != [] {
      assert t[0] == o[1];
    }
    forall k | 0 < k < |t|
      ensures NoneWith(f, f[t[k]].word, t[k - 1] + 1, t[k])
    {
      assert t[k] == o[k + 1] && t[k - 1] == o[k];
    }
  }

  /** The matching search recovers, for every placement, the entry of
      `formatted` that the builder placed it from. */
  lemma {:induction false} MatchOriginsAreOrigins(f: seq<Entry>)
    requires |f| > 0 && |f[0].word| <= Size
    ensures MatchOrigins(f, Generate(f).placements, 0) == Origins(f, |f|)
  {
    OriginsFirstAfter(f, |f|);
    MatchOriginsFirstAfter(f, Generate(f).placements, Origins(f, |f|), 0);
  }

  /** Corrected: the aligned clue list has one clue per placement; clue k
      carries the word placed k-th and the definition of the row that word
      was placed from. */
  lemma AlignedCluesMatchPlacements(words: seq<Vocabulary>)
    requires |words| > 0 && |words[0].word| <= Size
    ensures var f := Format(words); var b := Generate(f); var c := AlignedClues(f, b.placements);
      var o := Origins(f, |f|);
      |c| == |b.placements| &&
      forall k :: 0 <= k < |c| ==>
        c[k].answer == b.placements[k].word == Upper(words[o[k]].word) && c[k].clue == words[o[k]].definition
  {
    var f := Format(words);
    MatchOriginsAreOrigins(f);
  }

  /** The positions from, from + 1, ..., from + n - 1. */
  function Range(from: nat, n: nat): (r: seq<nat>)
    ensures |r| == n
    decreases n
  {
    if n == 0 then [] else [from] + Range(from + 1, n - 1)
  }

  lemma {:induction false} RangeAt(from: nat, n: nat, k: nat)
    requires k < n
    ensures Range(from, n)[k] == from + k
    decreases n
  {
    if k > 0 {
      RangeAt(from + 1, n - 1, k - 1);
    }
  }

  /** An entry at `from` carrying the first placement's word is taken. */
  lemma MatchOriginsHead(f: seq<Entry>, ps: seq<Placement>, from: nat)
    requires ps != [] && from < |f| && f[from].word == ps[0].word
    ensures MatchOrigins(f, ps, from) == [from] + MatchOrigins(f, ps[1..], from + 1)
  {
    assert NextWith(f, ps[0].word, from) == Some(from);
  }

  /** The greedy pairing is the identity when placement k carries the word
      of entry from + k for every k. */
  lemma {:induction false} MatchOriginsInOrder(f: seq<Entry>, ps: seq<Placement>, from: nat)
    requires from + |ps| <= |f|
    requires forall k :: 0 <= k < |ps| ==> ps[k].word == f[from + k].word
    ensures MatchOrigins(f, ps, from) == Range(from, |ps|)
    decreases |ps|
  {
    if ps != [] {
      assert ps[0].word == f[from + 0].word;
      MatchOriginsHead(f, ps, from);
      var tail := ps[1..];
      forall k | 0 <= k < |tail| ensures tail[k].word == f[from + 1 + k].word {
        assert tail[k] == ps[k + 1];
        assert ps[k + 1].word == f[from + (k + 1)].word;
      }
      MatchOriginsInOrder(f, tail, from + 1);
    }
  }

  /** When placement k carries the word of entry k, for every entry, the
      aligned clue list is the zipped one. */
  lemma AlignedIsZipInOrder(f: seq<Entry>, ps: seq<Placement>)
    requires |ps| == |f|
    requires forall k :: 0 <= k < |ps| ==> ps[k].word == f[k].word
    ensures AlignedClues(f, ps) == Clues(f, ps)
  {
    MatchOriginsInOrder(f, ps, 0);
    var o := MatchOrigins(f, ps, 0);
    var a := seq(|o|, k requires 0 <= k < |o| => MakeClue(k, f[o[k]], ps[k]));
    var c := seq(Min(|f|, |ps|), k requires 0 <= k < Min(|f|, |ps|) => MakeClue(k, f[k], ps[k]));
    assert AlignedClues(f, ps) == a;
    assert Clues(f, ps) == c;
    assert |a| == |c|;
    forall k | 0 <= k < |a| ensures a[k] == c[k] {
      RangeAt(0, |ps|, k);
    }
    assert a == c;
  }

  /** The corrected clue list is the served one whenever no word was
      dropped: the correction only changes lists the zip misaligns. */
  lemma AlignedCluesAgreeWhenNoneDropped(words: seq<Vocabulary>)
    requires |words| > 0 && |words[0].word| <= Size
    requires |Generate(Format(words)).placements| == |words|
    ensures var f := Format(words); var ps := Generate(f).placements;
      AlignedClues(f, ps) == Clues(f, ps)
  {
    var f := Format(words);
    var ps := Generate(f).placements;
    var origin := Origins(f, |f|);
    IncreasingFullIsIdentity(origin, |f|);
    AlignedIsZipInOrder(f, ps);
  }

  /** "CAT" and "CAR" start on the same cell, yet their clues are numbered
      1 and 2. */
  lemma CatAndCarNumbers()
    ensures var f := Format([Vocabulary("CAT", "pet"), Vocabulary("CAR", "vehicle")]);
      Clues(f, Generate(f).placements) ==
        [Clue(1, "across", "pet", "CAT", 5, 3), Clue(2, "down", "vehicle", "CAR", 5, 3)]
  {
    var f := Format([Vocabulary("CAT", "pet"), Vocabulary("CAR", "vehicle")]);
    assert IsUpperWord("CAT") && IsUpperWord("CAR");
    UpperIsIdempotent("CAT");
    UpperIsIdempotent("CAR");
    assert f == [Entry("CAT", "pet"), Entry("CAR", "vehicle")];
    CatThenCar("pet", "vehicle");
    ClueDirectionNames();
  }
}
