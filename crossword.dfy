/**
 * The crossword variant (components/puzzles/CrosswordPuzzle.tsx): the solver's letters
 * are kept per cell, and the check gives per-cell feedback and a correct/total count
 * over the grid's letter cells.
 */
module Crossword {
  import opened Common
  import opened Text

  /** A grid position; the source keys its maps by the string `${row}-${col}`. */
  datatype Cell = Cell(row: int, col: int)

  datatype Clue = Clue(number: int, clue: string, answer: string, row: int, col: int, length: int)

  /** A generated crossword (types.ts:17-24); a grid cell is a letter or null. */
  datatype CrosswordData = CrosswordData(theme: string, grid: seq<seq<Option<string>>>, across: seq<Clue>, down: seq<Clue>)

  datatype GenerationMode = FromTheme | FromWords

  /**
   * The word list typed in word mode: comma-separated, trimmed, empty entries dropped.
   * Every non-empty trimmed piece is listed as often as it occurs among the pieces.
   */
  function WordList(text: string): (words: seq<string>)
    ensures forall k :: 0 <= k < |words| ==> words[k] != ""
    ensures forall w :: w != "" ==> multiset(words)[w] == multiset(TrimAll(Split(text, ',')))[w]
  {
    NonEmpty(TrimAll(Split(text, ',')))
  }

  /** A word is listed exactly when it is a non-empty trimmed comma piece; it holds no comma. */
  lemma WordListMember(text: string, w: string)
    ensures w in WordList(text) <==> w != "" && exists k :: 0 <= k < |Split(text, ',')| && w == Trim(Split(text, ',')[k])
    ensures w in WordList(text) ==> ',' !in w
  {
    var pieces := Split(text, ',');
    TrimmedIff(pieces, w);
    if w in WordList(text) {
      var k := TrimmedPiece(pieces, w);
      TrimKeepsOut(pieces[k], ',');
    }
  }

  lemma TrimmedIff(pieces: seq<string>, w: string)
    ensures w in NonEmpty(TrimAll(pieces)) <==> w != "" && exists k :: 0 <= k < |pieces| && w == Trim(pieces[k])
  {
    var xs := TrimAll(pieces);
    if w in NonEmpty(xs) {
      var k := TrimmedPiece(pieces, w);
    }
  }

  lemma TrimmedPiece(pieces: seq<string>, w: string) returns (k: nat)
    requires w in NonEmpty(TrimAll(pieces))
    ensures k < |pieces| && w == Trim(pieces[k])
  {
    var xs := TrimAll(pieces);
    k :| 0 <= k < |xs| && xs[k] == w;
  }

  /** The words of text joined at a comma are the words of each side, in order. */
  lemma WordListAppend(a: string, b: string)
    ensures WordList(a + "," + b) == WordList(a) + WordList(b)
  {
    SplitAppend(a, b, ',');
    TrimAllAppend(Split(a, ','), Split(b, ','));
    NonEmptyAppend(TrimAll(Split(a, ',')), TrimAll(Split(b, ',')));
  }

  /** Text without a comma is one word, trimmed, or no word when it is blank. */
  lemma WordListPiece(p: string)
    requires ',' !in p
    ensures WordList(p) == if Trim(p) != "" then [Trim(p)] else []
  {
    SplitNone(p, ',');
    var t := Trim(p);
    assert TrimAll([p]) == [t];
    NonEmptySingle(t);
  }

  /**
   * `handleGenerate`: refused without a secret, without a theme in theme mode, or with
   * fewer than two words in word mode; otherwise the provider's answer decides.
   */
  function Generate(secret: Secret, mode: GenerationMode, theme: string, wordText: string,
                    response: Option<CrosswordData>): (g: Generation<CrosswordData>)
    ensures g.Refused? <==> !HasSecret(secret) || (mode == FromTheme && theme == "")
                            || (mode == FromWords && |WordList(wordText)| < 2)
    ensures g.Failed? <==> !g.Refused? && response.None?
    ensures g.Generated? ==> response == Some(g.content)
  {
    if !HasSecret(secret) then Refused
    else if mode == FromTheme && theme == "" then Refused
    else if mode == FromWords && |WordList(wordText)| < 2 then Refused
    else match response
      case None => Failed
      case Some(data) => Generated(data)
  }

  /** JavaScript truthiness of a grid cell: a non-null, non-empty string. */
  predicate IsFilled(cell: Option<string>) {
    cell.Some? && cell.value != ""
  }

  /** A cell inside the grid that holds a letter: a cell the check visits. */
  predicate LetterCell(grid: seq<seq<Option<string>>>, k: Cell) {
    0 <= k.row < |grid| && 0 <= k.col < |grid[k.row]| && IsFilled(grid[k.row][k.col])
  }

  /** `userAnswers[key] || ''`: the solver's entry, or the empty string when there is none. */
  function Answer(answers: map<Cell, string>, k: Cell): string {
    if k in answers then answers[k] else ""
  }

  /** The entry at a letter cell equals the upper-cased authoritative letter. */
  predicate CellCorrect(grid: seq<seq<Option<string>>>, answers: map<Cell, string>, k: Cell)
    requires LetterCell(grid, k)
  {
    Answer(answers, k) == Upper(grid[k.row][k.col].value)
  }

  /** The letter cells of the grid. */
  function FilledCells(grid: seq<seq<Option<string>>>): set<Cell> {
    set r, c | 0 <= r < |grid| && 0 <= c < |grid[r]| && IsFilled(grid[r][c]) :: Cell(r, c)
  }

  /** The letter cells whose entry is correct. */
  function CorrectCells(grid: seq<seq<Option<string>>>, answers: map<Cell, string>): set<Cell> {
    set r, c | 0 <= r < |grid| && 0 <= c < |grid[r]| && IsFilled(grid[r][c]) && CellCorrect(grid, answers, Cell(r, c)) :: Cell(r, c)
  }

  lemma CellSets(grid: seq<seq<Option<string>>>, answers: map<Cell, string>)
    ensures forall k :: k in FilledCells(grid) <==> LetterCell(grid, k)
    ensures forall k :: k in CorrectCells(grid, answers) <==> LetterCell(grid, k) && CellCorrect(grid, answers, k)
  {
    forall k | LetterCell(grid, k) ensures k in FilledCells(grid) {
      assert k == Cell(k.row, k.col);
    }
  }

  /** The entries of a feedback map that are true. */
  function TrueKeys(feedback: map<Cell, bool>): set<Cell> {
    set k | k in feedback && feedback[k]
  }

  /** Row-major order of the scan: cell k is visited before (r, c). */
  predicate VisitedBefore(k: Cell, r: int, c: int) {
    k.row < r || (k.row == r && k.col < c)
  }

  /** What the scan has built once it reaches (r, c): an entry and a count for each letter cell visited so far. */
  ghost predicate ScanState(grid: seq<seq<Option<string>>>, answers: map<Cell, string>, r: int, c: int,
                            feedback: map<Cell, bool>, correct: nat, total: nat)
  {
    && (forall k :: k in feedback <==> LetterCell(grid, k) && VisitedBefore(k, r, c))
    && (forall k :: k in feedback ==> LetterCell(grid, k) && feedback[k] == CellCorrect(grid, answers, k))
    && total == |feedback|
    && correct == |TrueKeys(feedback)|
  }

  /**
   * `checkSolution`'s scan: feedback for exactly the letter cells, true where the entry
   * is correct; `total` counts the letter cells and `correct` the true entries.
   */
  method Check(grid: seq<seq<Option<string>>>, answers: map<Cell, string>)
    returns (feedback: map<Cell, bool>, correct: nat, total: nat)
    ensures feedback.Keys == FilledCells(grid)
    ensures forall k :: k in feedback ==> LetterCell(grid, k) && feedback[k] == CellCorrect(grid, answers, k)
    ensures total == |FilledCells(grid)|
    ensures correct == |TrueKeys(feedback)| == |CorrectCells(grid, answers)|
  {
    feedback, correct, total := map[], 0, 0;
    for r := 0 to |grid|
      invariant ScanState(grid, answers, r, 0, feedback, correct, total)
    {
      feedback, correct, total := CheckRow(grid, answers, r, feedback, correct, total);
    }
    CellSets(grid, answers);
    assert feedback.Keys == FilledCells(grid);
    assert TrueKeys(feedback) == CorrectCells(grid, answers);
  }

  /** The inner `row.forEach` of the scan, over row `r`; it ends where the next row starts. */
  method CheckRow(grid: seq<seq<Option<string>>>, answers: map<Cell, string>, r: nat,
                  feedback0: map<Cell, bool>, correct0: nat, total0: nat)
    returns (feedback: map<Cell, bool>, correct: nat, total: nat)
    requires r < |grid|
    requires ScanState(grid, answers, r, 0, feedback0, correct0, total0)
    ensures ScanState(grid, answers, r + 1, 0, feedback, correct, total)
  {
    feedback, correct, total := feedback0, correct0, total0;
    var row := grid[r];
    for c := 0 to |row|
      invariant ScanState(grid, answers, r, c, feedback, correct, total)
    {
      var cell := row[c];
      if cell.Some? && cell.value != "" {
        var isCorrect := Answer(answers, Cell(r, c)) == Upper(cell.value);
        ScanLetter(grid, answers, r, c, feedback, correct, total);
        feedback := feedback[Cell(r, c) := isCorrect];
        total := total + 1;
        if isCorrect {
          correct := correct + 1;
        }
      } else {
        ScanBlank(grid, answers, r, c, feedback, correct, total);
      }
    }
    ScanRowEnd(grid, answers, r, feedback, correct, total);
  }

  /** Visiting a letter cell adds its feedback entry and counts it. */
  lemma ScanLetter(grid: seq<seq<Option<string>>>, answers: map<Cell, string>, r: int, c: int,
                   feedback: map<Cell, bool>, correct: nat, total: nat)
    requires 0 <= r < |grid| && 0 <= c < |grid[r]| && IsFilled(grid[r][c])
    requires ScanState(grid, answers, r, c, feedback, correct, total)
    ensures var ok := Answer(answers, Cell(r, c)) == Upper(grid[r][c].value);
      ScanState(grid, answers, r, c + 1, feedback[Cell(r, c) := ok], correct + (if ok then 1 else 0), total + 1)
  {
    var k := Cell(r, c);
    var ok := Answer(answers, k) == Upper(grid[r][c].value);
    assert k !in feedback;
    ScanLetterKeys(grid, answers, r, c, feedback, ok);
    assert |feedback[k := ok]| == |feedback| + 1;
    TrueKeysAdd(feedback, k, ok);
  }

  lemma ScanLetterKeys(grid: seq<seq<Option<string>>>, answers: map<Cell, string>, r: int, c: int,
                       feedback: map<Cell, bool>, ok: bool)
    requires 0 <= r < |grid| && 0 <= c < |grid[r]| && IsFilled(grid[r][c])
    requires ok == (Answer(answers, Cell(r, c)) == Upper(grid[r][c].value))
    requires forall k :: k in feedback <==> LetterCell(grid, k) && VisitedBefore(k, r, c)
    requires forall k :: k in feedback ==> LetterCell(grid, k) && feedback[k] == CellCorrect(grid, answers, k)
    ensures forall k :: k in feedback[Cell(r, c) := ok] <==> LetterCell(grid, k) && VisitedBefore(k, r, c + 1)
    ensures forall k :: k in feedback[Cell(r, c) := ok] ==>
      LetterCell(grid, k) && feedback[Cell(r, c) := ok][k] == CellCorrect(grid, answers, k)
  {
    var fb := feedback[Cell(r, c) := ok];
    forall k' ensures k' in fb <==> LetterCell(grid, k') && VisitedBefore(k', r, c + 1) {
      assert k' in fb <==> k' in feedback || k' == Cell(r, c);
    }
    forall k' | k' in fb ensures LetterCell(grid, k') && fb[k'] == CellCorrect(grid, answers, k') {
      if k' != Cell(r, c) {
        assert k' in feedback;
      }
    }
  }

  /** Visiting a cell without a letter changes nothing. */
  lemma ScanBlank(grid: seq<seq<Option<string>>>, answers: map<Cell, string>, r: int, c: int,
                  feedback: map<Cell, bool>, correct: nat, total: nat)
    requires 0 <= r < |grid| && 0 <= c < |grid[r]| && !IsFilled(grid[r][c])
    requires ScanState(grid, answers, r, c, feedback, correct, total)
    ensures ScanState(grid, answers, r, c + 1, feedback, correct, total)
  {
  }

  /** The end of row r is the start of row r + 1. */
  lemma ScanRowEnd(grid: seq<seq<Option<string>>>, answers: map<Cell, string>, r: int,
                   feedback: map<Cell, bool>, correct: nat, total: nat)
    requires 0 <= r < |grid|
    requires ScanState(grid, answers, r, |grid[r]|, feedback, correct, total)
    ensures ScanState(grid, answers, r + 1, 0, feedback, correct, total)
  {
  }

  /** Adding a fresh entry adds its key to the true keys exactly when its value is true. */
  lemma TrueKeysAdd(feedback: map<Cell, bool>, k: Cell, v: bool)
    requires k !in feedback
    ensures TrueKeys(feedback[k := v]) == TrueKeys(feedback) + (if v then {k} else {})
    ensures |TrueKeys(feedback[k := v])| == |TrueKeys(feedback)| + (if v then 1 else 0)
  {
    assert TrueKeys(feedback[k := v]) == TrueKeys(feedback) + (if v then {k} else {});
  }

  /** The play phase: the generated crossword, the solver's entries, the last feedback. */
  class CrosswordGame {
    const data: CrosswordData
    var answers: map<Cell, string>
    var feedback: map<Cell, bool>
    var solved: bool

    constructor Start(generated: CrosswordData)
      ensures data == generated && answers == map[] && feedback == map[] && !solved
    {
      data := generated;
      answers, feedback, solved := map[], map[], false;
    }

    /** `handleInputChange`: the entry at (row, col) becomes the upper-cased value; every other entry stays. */
    method InputChange(row: int, col: int, value: string)
      modifies this
      ensures answers == old(answers)[Cell(row, col) := Upper(value)]
      ensures feedback == old(feedback) && solved == old(solved)
    {
      answers := answers[Cell(row, col) := Upper(value)];
    }

    /**
     * `checkSolution`: replaces the feedback, leaves the entries alone, and marks the
     * puzzle solved when every letter cell is correct.
     */
    method CheckSolution()
      modifies this
      ensures answers == old(answers)
      ensures feedback.Keys == FilledCells(data.grid)
      ensures forall k :: k in feedback ==> LetterCell(data.grid, k) && feedback[k] == CellCorrect(data.grid, answers, k)
      ensures solved == (old(solved) || CorrectCells(data.grid, answers) == FilledCells(data.grid))
    {
      var fb, correct, total := Check(data.grid, answers);
      feedback := fb;
      SolvedIffAllCorrect(data.grid, answers);
      if correct == total {
        solved := true;
      }
    }
  }

  /** Correct cells are letter cells, so the correct count never exceeds the total. */
  lemma CorrectAtMostTotal(grid: seq<seq<Option<string>>>, answers: map<Cell, string>)
    ensures CorrectCells(grid, answers) <= FilledCells(grid)
    ensures |CorrectCells(grid, answers)| <= |FilledCells(grid)|
  {
    var a, b := CorrectCells(grid, answers), FilledCells(grid);
    assert a <= b;
    assert b == a + (b - a);
  }

  /** The counts agree exactly when every letter cell is correct. */
  lemma SolvedIffAllCorrect(grid: seq<seq<Option<string>>>, answers: map<Cell, string>)
    ensures |CorrectCells(grid, answers)| == |FilledCells(grid)| <==> CorrectCells(grid, answers) == FilledCells(grid)
  {
    var a, b := CorrectCells(grid, answers), FilledCells(grid);
    CorrectAtMostTotal(grid, answers);
    if |a| == |b| {
      assert |b - a| == |b| - |a| == 0;
      assert b - a == {};
    }
  }

  /** Entries that spell every authoritative letter, upper-cased. */
  ghost predicate FullyFilled(grid: seq<seq<Option<string>>>, answers: map<Cell, string>) {
    forall k :: LetterCell(grid, k) ==> Answer(answers, k) == Upper(grid[k.row][k.col].value)
  }

  /** Filling every authoritative letter makes every letter cell correct, so the check solves the puzzle. */
  lemma FullFillSolves(grid: seq<seq<Option<string>>>, answers: map<Cell, string>)
    requires FullyFilled(grid, answers)
    ensures CorrectCells(grid, answers) == FilledCells(grid)
  {
    CellSets(grid, answers);
  }

  /**
   * From a fully correct fill, making one letter cell wrong lowers the correct count by
   * exactly one, so the puzzle is not solved.
   */
  lemma OneWrongCell(grid: seq<seq<Option<string>>>, answers: map<Cell, string>, k: Cell, v: string)
    requires FullyFilled(grid, answers)
    requires LetterCell(grid, k) && v != Upper(grid[k.row][k.col].value)
    ensures CorrectCells(grid, answers[k := v]) == FilledCells(grid) - {k}
    ensures |CorrectCells(grid, answers[k := v])| == |FilledCells(grid)| - 1
    ensures CorrectCells(grid, answers[k := v]) != FilledCells(grid)
  {
    CellSets(grid, answers[k := v]);
    CellSets(grid, answers);
    assert CorrectCells(grid, answers[k := v]) == FilledCells(grid) - {k};
  }
}
