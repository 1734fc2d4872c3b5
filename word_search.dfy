/**
 * The word-search variant (components/puzzles/WordSearchPuzzle.tsx and the exported
 * player in services/exportService.ts): a drag from one grid cell to another selects a
 * straight line; a drag whose endpoints are a solution's endpoints, either way round,
 * finds that solution's word; the puzzle is won when as many words are found as listed.
 */
module WordSearch {
  import opened Common
  import opened Text

  datatype Cell = Cell(row: int, col: int)
  datatype Solution = Solution(word: string, start: Cell, end: Cell)
  datatype WordSearchData = WordSearchData(grid: seq<seq<string>>, solutions: seq<Solution>, words: seq<string>)

  /** `.map(w => w.toUpperCase())`. */
  function UpperAll(xs: seq<string>): (r: seq<string>)
    ensures |r| == |xs| && forall k :: 0 <= k < |xs| ==> r[k] == Upper(xs[k])
  {
    seq(|xs|, k requires 0 <= k < |xs| => Upper(xs[k]))
  }

  /**
   * The word list typed in the configuration: comma-separated, trimmed, upper-cased,
   * empties dropped; every non-empty piece is listed as often as it occurs.
   */
  function WordList(text: string): (words: seq<string>)
    ensures forall k :: 0 <= k < |words| ==> words[k] != ""
    ensures forall w :: w != "" ==> multiset(words)[w] == multiset(UpperAll(TrimAll(Split(text, ','))))[w]
  {
    NonEmpty(UpperAll(TrimAll(Split(text, ','))))
  }

  /**
   * A word is listed exactly when it is a non-empty, trimmed, upper-cased comma piece;
   * a listed word holds no comma.
   */
  lemma ListedWord(text: string, w: string)
    ensures w in WordList(text) <==>
      w != "" && exists k :: 0 <= k < |Split(text, ',')| && w == Upper(Trim(Split(text, ',')[k]))
    ensures w in WordList(text) ==> ',' !in w
  {
    var pieces := Split(text, ',');
    ListedIff(pieces, w);
    if w in WordList(text) {
      var k := ListedPiece(pieces, w);
      CleanPiece(pieces[k]);
    }
  }

  lemma ListedIff(pieces: seq<string>, w: string)
    ensures w in NonEmpty(UpperAll(TrimAll(pieces))) <==>
      w != "" && exists k :: 0 <= k < |pieces| && w == Upper(Trim(pieces[k]))
  {
    if w != "" && exists k :: 0 <= k < |pieces| && w == Upper(Trim(pieces[k])) {
      var k :| 0 <= k < |pieces| && w == Upper(Trim(pieces[k]));
      assert UpperAll(TrimAll(pieces))[k] == w;
    }
  }

  lemma ListedPiece(pieces: seq<string>, w: string) returns (k: nat)
    requires w in NonEmpty(UpperAll(TrimAll(pieces)))
    ensures k < |pieces| && w == Upper(Trim(pieces[k])) && w != ""
  {
    var xs := UpperAll(TrimAll(pieces));
    k :| 0 <= k < |xs| && xs[k] == w;
  }

  lemma CleanPiece(p: string)
    requires ',' !in p
    ensures ',' !in Upper(Trim(p))
  {
    TrimKeepsOut(p, ',');
    UpperKeepsOut(Trim(p), ',');
  }

  /** The words of text joined at a comma are the words of each side, in order. */
  lemma WordListAppend(a: string, b: string)
    ensures WordList(a + "," + b) == WordList(a) + WordList(b)
  {
    SplitAppend(a, b, ',');
    ListAppend(Split(a, ','), Split(b, ','));
  }

  lemma ListAppend(ps: seq<string>, qs: seq<string>)
    ensures NonEmpty(UpperAll(TrimAll(ps + qs))) == NonEmpty(UpperAll(TrimAll(ps))) + NonEmpty(UpperAll(TrimAll(qs)))
  {
    var xs, ys := TrimAll(ps), TrimAll(qs);
    TrimAllAppend(ps, qs);
    UpperAllAppend(xs, ys);
    NonEmptyAppend(UpperAll(xs), UpperAll(ys));
  }

  lemma UpperAllAppend(xs: seq<string>, ys: seq<string>)
    ensures UpperAll(xs + ys) == UpperAll(xs) + UpperAll(ys)
  {
    var l, r := UpperAll(xs + ys), UpperAll(xs) + UpperAll(ys);
    assert |l| == |r|;
    forall k | 0 <= k < |l| ensures l[k] == r[k] {
      if k < |xs| {
        assert (xs + ys)[k] == xs[k];
      } else {
        assert (xs + ys)[k] == ys[k - |xs|];
      }
    }
  }

  /** Text without a comma is one word, trimmed and upper-cased, or no word when it is blank. */
  lemma WordListPiece(p: string)
    requires ',' !in p
    ensures WordList(p) == if Trim(p) != "" then [Upper(Trim(p))] else []
  {
    SplitNone(p, ',');
    var t := Upper(Trim(p));
    assert UpperAll(TrimAll([p])) == [t];
    NonEmptySingle(t);
  }

  lemma UpperKeepsOut(s: string, c: char)
    requires c !in s && !IsLetter(c)
    ensures c !in Upper(s)
  {
    forall i | 0 <= i < |s| ensures Upper(s)[i] != c {
      assert Upper(s)[i] == UpperChar(s[i]);
    }
  }


  /** `handleGenerate`: at least two words, a secret message and a secret; then the generator's answer. */
  function Generate(text: string, secretMessage: string, secret: Secret, response: Option<WordSearchData>): (g: Generation<WordSearchData>)
    ensures g.Refused? <==> |WordList(text)| < 2 || secretMessage == "" || !HasSecret(secret)
    ensures g.Generated? <==> !g.Refused? && response.Some?
    ensures g.Generated? ==> g.content == response.value
  {
    if |WordList(text)| < 2 || secretMessage == "" || !HasSecret(secret) then Refused
    else match response
      case Some(d) => Generated(d)
      case None => Failed
  }

  /** `Math.sign`. */
  function Sign(x: int): int {
    if x > 0 then 1 else if x < 0 then -1 else 0
  }

  function Abs(x: int): nat {
    if x < 0 then -x else x
  }

  function Max(a: int, b: int): int {
    if a >= b then a else b
  }

  /** Horizontal, vertical or 45-degree diagonal. */
  predicate IsLine(a: Cell, b: Cell) {
    var dRow, dCol := b.row - a.row, b.col - a.col;
    dRow == 0 || dCol == 0 || Abs(dRow) == Abs(dCol)
  }

  /** The number of steps from a to b: the larger coordinate distance. */
  function Steps(a: Cell, b: Cell): nat {
    Max(Abs(b.row - a.row), Abs(b.col - a.col))
  }

  /** The i-th cell from a in direction (dy, dx). */
  function Point(a: Cell, dy: int, dx: int, i: int): Cell {
    Cell(a.row + i * dy, a.col + i * dx)
  }

  /** The first m cells from a in direction (dy, dx). */
  function FirstCells(a: Cell, dy: int, dx: int, m: nat): set<Cell> {
    set i | 0 <= i < m :: Point(a, dy, dx, i)
  }

  /** The cells of the line from a to b, both included. */
  function Segment(a: Cell, b: Cell): set<Cell> {
    FirstCells(a, Sign(b.row - a.row), Sign(b.col - a.col), Steps(a, b) + 1)
  }

  /** The cells a selection highlights. */
  function Highlight(selection: seq<Cell>): set<Cell>
    requires |selection| <= 2
  {
    if |selection| == 0 then {}
    else if |selection| == 1 then {selection[0]}
    else if !IsLine(selection[0], selection[1]) then {selection[0], selection[1]}
    else Segment(selection[0], selection[1])
  }

  lemma FirstCellsStep(a: Cell, dy: int, dx: int, m: nat)
    ensures FirstCells(a, dy, dx, m + 1) == FirstCells(a, dy, dx, m) + {Point(a, dy, dx, m)}
  {
    var p := Point(a, dy, dx, m);
    assert p in FirstCells(a, dy, dx, m + 1);
  }

  /** On a line, `Steps` steps of `(sign dRow, sign dCol)` lead from a exactly to b. */
  lemma LineReachesEnd(a: Cell, b: Cell)
    requires IsLine(a, b)
    ensures Point(a, Sign(b.row - a.row), Sign(b.col - a.col), Steps(a, b)) == b
  {
    var n: int := Steps(a, b);
    var dy, dx := Sign(b.row - a.row), Sign(b.col - a.col);
    assert n * dy == b.row - a.row by {
      if dy == 1 { assert n * dy == n; } else if dy == -1 { assert n * dy == -n; } else { assert n * dy == 0; }
    }
    assert n * dx == b.col - a.col by {
      if dx == 1 { assert n * dx == n; } else if dx == -1 { assert n * dx == -n; } else { assert n * dx == 0; }
    }
  }

  /** Distinct step counts give distinct cells once the direction is not zero. */
  lemma PointsDistinct(a: Cell, dy: int, dx: int, i: int, j: int)
    requires -1 <= dy <= 1 && -1 <= dx <= 1 && (dy != 0 || dx != 0) && i != j
    ensures Point(a, dy, dx, i) != Point(a, dy, dx, j)
  {
    if dy != 0 {
      if dy == 1 { assert i * dy == i && j * dy == j; } else { assert i * dy == -i && j * dy == -j; }
    } else {
      if dx == 1 { assert i * dx == i && j * dx == j; } else { assert i * dx == -i && j * dx == -j; }
    }
  }

  lemma {:induction false} FirstCellsSize(a: Cell, dy: int, dx: int, m: nat)
    requires -1 <= dy <= 1 && -1 <= dx <= 1 && (dy != 0 || dx != 0)
    ensures |FirstCells(a, dy, dx, m)| == m
  {
    if m > 0 {
      FirstCellsSize(a, dy, dx, m - 1);
      FirstCellsStep(a, dy, dx, m - 1);
      if Point(a, dy, dx, m - 1) in FirstCells(a, dy, dx, m - 1) {
        var i :| 0 <= i < m - 1 && Point(a, dy, dx, i) == Point(a, dy, dx, m - 1);
        PointsDistinct(a, dy, dx, i, m - 1);
      }
    } else {
      assert FirstCells(a, dy, dx, 0) == {};
    }
  }

  /** A line selection covers both endpoints and exactly `Steps + 1` cells. */
  lemma SegmentShape(a: Cell, b: Cell)
    requires IsLine(a, b)
    ensures a in Segment(a, b) && b in Segment(a, b)
    ensures |Segment(a, b)| == Steps(a, b) + 1
  {
    var dy, dx := Sign(b.row - a.row), Sign(b.col - a.col);
    assert Point(a, dy, dx, 0) == a;
    LineReachesEnd(a, b);
    assert Point(a, dy, dx, Steps(a, b)) in Segment(a, b);
    if a == b {
      assert Segment(a, b) == {a} by {
        forall k | k in Segment(a, b) ensures k == a {
          var i :| 0 <= i < 1 && Point(a, dy, dx, i) == k;
        }
      }
    } else {
      FirstCellsSize(a, dy, dx, Steps(a, b) + 1);
    }
  }

  predicate Between(x: int, lo: int, hi: int) {
    (lo <= x <= hi) || (hi <= x <= lo)
  }

  /**
   * An independent description of a line's cells: those inside the bounding box of
   * a and b that lie on the straight line through them.
   */
  predicate OnLineBetween(a: Cell, b: Cell, k: Cell) {
    && Between(k.row, a.row, b.row) && Between(k.col, a.col, b.col)
    && (k.row - a.row) * (b.col - a.col) == (k.col - a.col) * (b.row - a.row)
  }

  lemma TimesSign(i: int, x: int)
    ensures i * Sign(x) == (if x > 0 then i else if x < 0 then -i else 0)
  {
  }

  lemma CancelNonZero(x: int, y: int, d: int)
    requires d != 0 && x * d == y * d
    ensures x == y
  {
    assert (x - y) * d == 0;
  }

  lemma InSegment(a: Cell, b: Cell, k: Cell)
    requires IsLine(a, b) && k in Segment(a, b)
    ensures OnLineBetween(a, b, k)
  {
    var dr, dc := b.row - a.row, b.col - a.col;
    var dy, dx := Sign(dr), Sign(dc);
    var n := Steps(a, b);
    var i :| 0 <= i < n + 1 && Point(a, dy, dx, i) == k;
    LineReachesEnd(a, b);
    AxisBetween(dr, n, i);
    AxisBetween(dc, n, i);
    SameSlope(i, n, dy, dx);
  }

  lemma SameSlope(i: int, n: int, dy: int, dx: int)
    ensures (i * dy) * (n * dx) == (i * dx) * (n * dy)
  {
    assert (i * dy) * (n * dx) == i * n * dy * dx;
    assert (i * dx) * (n * dy) == i * n * dy * dx;
  }

  /** Along one axis, the i-th step of n stays between the start and the end. */
  lemma AxisBetween(d: int, n: nat, i: nat)
    requires n * Sign(d) == d && i <= n
    ensures Between(i * Sign(d), 0, d)
  {
    TimesSign(i, d);
    TimesSign(n, d);
  }

  lemma SegmentHasLinePoint(a: Cell, b: Cell, k: Cell)
    requires IsLine(a, b) && OnLineBetween(a, b, k)
    ensures k in Segment(a, b)
  {
    var dr, dc := b.row - a.row, b.col - a.col;
    var dy, dx := Sign(dr), Sign(dc);
    var n := Steps(a, b);
    var r, c := k.row - a.row, k.col - a.col;
    var i := Max(Abs(r), Abs(c));
    if dr == 0 && dc == 0 {
      assert k == Point(a, dy, dx, 0);
    } else if dr == 0 {
      assert r * dc == 0;
      CancelNonZero(r, 0, dc);
      TimesSign(i, dc); TimesSign(i, dr);
      assert k == Point(a, dy, dx, i);
    } else if dc == 0 {
      assert c * dr == 0;
      CancelNonZero(c, 0, dr);
      TimesSign(i, dc); TimesSign(i, dr);
      assert k == Point(a, dy, dx, i);
    } else {
      if dr == dc {
        CancelNonZero(r, c, dc);
      } else {
        assert dr == -dc;
        assert r * dc == c * (-dc);
        assert c * (-dc) == (-c) * dc;
        CancelNonZero(r, -c, dc);
      }
      TimesSign(i, dc); TimesSign(i, dr);
      assert k == Point(a, dy, dx, i);
    }
    assert 0 <= i <= n;
  }

  /** The line's cells are exactly the collinear cells in the bounding box. */
  lemma SegmentIffOnLine(a: Cell, b: Cell, k: Cell)
    requires IsLine(a, b)
    ensures k in Segment(a, b) <==> OnLineBetween(a, b, k)
  {
    if k in Segment(a, b) {
      InSegment(a, b, k);
    }
    if OnLineBetween(a, b, k) {
      SegmentHasLinePoint(a, b, k);
    }
  }

  /**
   * `cellsInSelection`: nothing, the one point, the two endpoints of a pair that is not
   * a line, or the bounded walk along a line.
   */
  method CellsInSelection(selection: seq<Cell>) returns (cells: set<Cell>)
    requires |selection| <= 2
    ensures cells == Highlight(selection)
  {
    cells := {};
    if |selection| == 0 {
      return;
    }
    if |selection| == 1 {
      cells := {selection[0]};
      return;
    }
    var start, end := selection[0], selection[1];
    var dRow, dCol := end.row - start.row, end.col - start.col;
    var isHorizontal := dRow == 0;
    var isVertical := dCol == 0;
    var isDiagonal := Abs(dRow) == Abs(dCol);
    if !isHorizontal && !isVertical && !isDiagonal {
      cells := {start, end};
      return;
    }
    var dx, dy := Sign(dCol), Sign(dRow);
    var steps := Max(Abs(dRow), Abs(dCol));
    for i := 0 to steps + 1
      invariant cells == FirstCells(start, dy, dx, i)
    {
      FirstCellsStep(start, dy, dx, i);
      cells := cells + {Cell(start.row + i * dy, start.col + i * dx)};
    }
  }

  /**
   * The walk in `foundCells` for one solution: from the start, one `(sign dRow,
   * sign dCol)` step at a time, until the end is reached. It arrives only on a line.
   */
  method WalkSolution(start: Cell, end: Cell) returns (cells: set<Cell>)
    requires IsLine(start, end)
    ensures cells == Segment(start, end)
  {
    var dx, dy := Sign(end.col - start.col), Sign(end.row - start.row);
    var row, col := start.row, start.col;
    cells := {};
    ghost var i := 0;
    ghost var n := Steps(start, end);
    LineReachesEnd(start, end);
    while true
      invariant 0 <= i <= n
      invariant Cell(row, col) == Point(start, dy, dx, i)
      invariant cells == FirstCells(start, dy, dx, i)
      decreases n - i
    {
      FirstCellsStep(start, dy, dx, i);
      cells := cells + {Cell(row, col)};
      if row == end.row && col == end.col {
        if i < n {
          PointsDistinct(start, dy, dx, i, n);
        }
        return;
      }
      if i == n {
        assert false;
      }
      row, col := row + dy, col + dx;
      i := i + 1;
    }
  }

  /** Off a line, the walk never reaches the end: it would not terminate. */
  lemma OffLineNeverArrives(a: Cell, b: Cell, i: nat)
    requires !IsLine(a, b)
    ensures Point(a, Sign(b.row - a.row), Sign(b.col - a.col), i) != b
  {
    TimesSign(i, b.row - a.row);
    TimesSign(i, b.col - a.col);
  }

  /** Whether a drag from a to b hits a solution, forwards or backwards. */
  predicate Matches(sol: Solution, a: Cell, b: Cell) {
    (sol.start == a && sol.end == b) || (sol.start == b && sol.end == a)
  }

  /** The first solution the drag hits whose word is not yet found. */
  function NewMatch(sols: seq<Solution>, a: Cell, b: Cell, found: set<string>): (m: Option<nat>)
    ensures m.Some? ==> m.value < |sols| && Matches(sols[m.value], a, b) && sols[m.value].word !in found
    ensures m.Some? ==> forall j :: 0 <= j < m.value ==> !(Matches(sols[j], a, b) && sols[j].word !in found)
    ensures m.None? ==> forall j :: 0 <= j < |sols| ==> !(Matches(sols[j], a, b) && sols[j].word !in found)
  {
    if sols == [] then None
    else if Matches(sols[0], a, b) && sols[0].word !in found then Some(0)
    else match NewMatch(sols[1..], a, b, found)
      case None => None
      case Some(j) => Some(j + 1)
  }

  /** The found words after a two-point drag from a to b. */
  function AfterDrag(sols: seq<Solution>, a: Cell, b: Cell, found: set<string>): set<string> {
    match NewMatch(sols, a, b, found)
      case None => found
      case Some(j) => found + {sols[j].word}
  }

  /** The scan in `checkSelection`: the first hit whose word is new, with early exit. */
  method FindNewMatch(sols: seq<Solution>, a: Cell, b: Cell, found: set<string>) returns (m: Option<nat>)
    ensures m == NewMatch(sols, a, b, found)
  {
    for j := 0 to |sols|
      invariant forall j' :: 0 <= j' < j ==> !(Matches(sols[j'], a, b) && sols[j'].word !in found)
    {
      if Matches(sols[j], a, b) && sols[j].word !in found {
        m := Some(j);
        return;
      }
    }
    m := None;
  }

  /** A drag adds at most one word, and only the word of a solution it hits. */
  lemma DragAddsAtMostOne(sols: seq<Solution>, a: Cell, b: Cell, found: set<string>)
    ensures found <= AfterDrag(sols, a, b, found)
    ensures |AfterDrag(sols, a, b, found)| <= |found| + 1
    ensures forall w :: w in AfterDrag(sols, a, b, found) && w !in found ==>
      exists j :: 0 <= j < |sols| && sols[j].word == w && Matches(sols[j], a, b)
  {
    match NewMatch(sols, a, b, found)
    case None =>
    case Some(j) =>
      assert AfterDrag(sols, a, b, found) == found + {sols[j].word};
  }

  /** The direction of the drag does not matter. */
  lemma DragEitherWay(sols: seq<Solution>, a: Cell, b: Cell, found: set<string>)
    ensures AfterDrag(sols, a, b, found) == AfterDrag(sols, b, a, found)
  {
    assert forall s :: Matches(s, a, b) <==> Matches(s, b, a);
    NewMatchEitherWay(sols, a, b, found);
  }

  lemma {:induction false} NewMatchEitherWay(sols: seq<Solution>, a: Cell, b: Cell, found: set<string>)
    ensures NewMatch(sols, a, b, found) == NewMatch(sols, b, a, found)
  {
    if sols != [] {
      NewMatchEitherWay(sols[1..], a, b, found);
    }
  }

  /** Once every solution the drag hits is found, repeating the drag changes nothing. */
  lemma RepeatDragNoChange(sols: seq<Solution>, a: Cell, b: Cell, found: set<string>)
    requires forall j :: 0 <= j < |sols| && Matches(sols[j], a, b) ==> sols[j].word in found
    ensures AfterDrag(sols, a, b, found) == found
  {
  }

  /** The words of all solutions. */
  function SolutionWords(sols: seq<Solution>): set<string> {
    set j | 0 <= j < |sols| :: sols[j].word
  }

  /** The play phase, in the app and in the exported player alike. */
  class WordSearchGame {
    const data: WordSearchData
    var foundWords: set<string>
    var selection: seq<Cell>
    var selecting: bool
    var solved: bool

    ghost predicate Valid()
      reads this
    {
      && |selection| <= 2
      && (selection != [] ==> selecting)
      && foundWords <= SolutionWords(data.solutions)
      && (|foundWords| == |data.words| ==> solved)
      && (solved ==> |data.words| <= |foundWords|)
    }

    /** A freshly generated or exported puzzle; the win effect runs once on it. */
    constructor Start(puzzle: WordSearchData)
      ensures Valid()
      ensures data == puzzle && foundWords == {} && selection == [] && !selecting
      ensures solved == (|puzzle.words| == 0)
    {
      data := puzzle;
      foundWords := {};
      selection := [];
      selecting := false;
      solved := |puzzle.words| == 0;
    }

    /** `handleMouseDown`: a press on a cell starts a selection at that cell. */
    method MouseDown(cell: Option<Cell>)
      requires Valid()
      modifies this
      ensures Valid()
      ensures foundWords == old(foundWords) && solved == old(solved)
      ensures cell.Some? ==> selecting && selection == [cell.value]
      ensures cell.None? ==> selecting == old(selecting) && selection == old(selection)
    {
      if cell.Some? {
        selecting := true;
        selection := [cell.value];
      }
    }

    /** `handleMouseMove`: while selecting, a new cell replaces the end point, keeping the start. */
    method MouseMove(cell: Option<Cell>)
      requires Valid()
      modifies this
      ensures Valid()
      ensures foundWords == old(foundWords) && solved == old(solved) && selecting == old(selecting)
      ensures old(selecting) && old(selection) != [] && cell.Some?
              && cell.value != old(selection)[|old(selection)| - 1] ==>
        selection == [old(selection)[0], cell.value]
      ensures !(old(selecting) && old(selection) != [] && cell.Some?
                && cell.value != old(selection)[|old(selection)| - 1]) ==>
        selection == old(selection)
    {
      if selecting && |selection| > 0 {
        var lastCell := if |selection| > 1 then selection[1] else selection[0];
        if cell.Some? && (cell.value.row != lastCell.row || cell.value.col != lastCell.col) {
          selection := [selection[0], cell.value];
        }
      }
    }

    /**
     * `handleMouseUp` (and `checkSelection`): a two-point selection is matched, then the
     * selection is always cleared; the win effect compares the counts.
     */
    method MouseUp()
      requires Valid()
      modifies this
      ensures Valid()
      ensures selection == [] && !selecting
      ensures |old(selection)| == 2 ==>
        foundWords == AfterDrag(data.solutions, old(selection)[0], old(selection)[1], old(foundWords))
      ensures |old(selection)| != 2 ==> foundWords == old(foundWords)
      ensures solved == (old(solved) || |foundWords| == |data.words|)
    {
      if |selection| == 2 {
        var start, end := selection[0], selection[1];
        var m := FindNewMatch(data.solutions, start, end, foundWords);
        DragAddsAtMostOne(data.solutions, start, end, foundWords);
        if m.Some? {
          foundWords := foundWords + {data.solutions[m.value].word};
        }
      }
      selecting := false;
      selection := [];
      if |foundWords| == |data.words| {
        solved := true;
      }
    }
  }

  /** When the solutions carry fewer distinct words than are listed, the puzzle cannot be won. */
  lemma FewerSolutionWordsNeverWon(game: WordSearchGame)
    requires game.Valid() && |SolutionWords(game.data.solutions)| < |game.data.words|
    ensures !game.solved
  {
    SubsetSize(game.foundWords, SolutionWords(game.data.solutions));
  }

  lemma SubsetSize<T>(a: set<T>, b: set<T>)
    requires a <= b
    ensures |a| <= |b|
  {
    assert b == a + (b - a);
  }

  lemma SubsetOfEqualSize<T>(a: set<T>, b: set<T>)
    requires a <= b && |b| <= |a|
    ensures a == b
  {
    assert |b - a| == |b| - |a|;
  }

  /**
   * With distinct listed words that are exactly the solutions' words, winning by count
   * means every listed word was found.
   */
  lemma WonMeansAllFound(game: WordSearchGame)
    requires game.Valid() && game.solved
    requires |set w | w in game.data.words| == |game.data.words|
    requires SolutionWords(game.data.solutions) == set w | w in game.data.words
    ensures game.foundWords == set w | w in game.data.words
  {
    SubsetOfEqualSize(game.foundWords, set w | w in game.data.words);
  }

  /**
   * `foundCells`: the cells of every solution whose word is found, each walked from its
   * endpoints.
   */
  method FoundCells(data: WordSearchData, found: set<string>) returns (cells: set<Cell>)
    requires forall j :: 0 <= j < |data.solutions| && data.solutions[j].word in found ==>
      IsLine(data.solutions[j].start, data.solutions[j].end)
    ensures forall k :: k in cells <==>
      exists j :: 0 <= j < |data.solutions| && data.solutions[j].word in found
        && k in Segment(data.solutions[j].start, data.solutions[j].end)
  {
    cells := {};
    for j := 0 to |data.solutions|
      invariant forall k :: k in cells <==>
        exists j' :: 0 <= j' < j && data.solutions[j'].word in found
          && k in Segment(data.solutions[j'].start, data.solutions[j'].end)
    {
      var sol := data.solutions[j];
      if sol.word in found {
        var walked := WalkSolution(sol.start, sol.end);
        cells := cells + walked;
      }
    }
  }
}
