/**
 * The word-ladder variant (components/puzzles/WordLadderPuzzle.tsx): the generated
 * ladder is taken as authoritative, the solver fills one row per step, and the
 * check compares every row, ends included, with the ladder.
 */
module WordLadder {
  import opened Common
  import opened Text

  /**
   * `handleGenerate`: no request unless both words are non-empty, of one length and a
   * secret is set; any non-empty ladder the provider returns is accepted as it is.
   */
  function Generate(startWord: string, endWord: string, secret: Secret, response: Option<seq<string>>)
    : (g: Generation<seq<string>>)
    ensures g.Refused? <==> startWord == "" || endWord == "" || |startWord| != |endWord| || !HasSecret(secret)
    ensures g.Generated? <==> !g.Refused? && response.Some? && |response.value| > 0
    ensures g.Generated? ==> g.content == response.value
  {
    if startWord == "" || endWord == "" || |startWord| != |endWord| || !HasSecret(secret) then Refused
    else if response.Some? && |response.value| > 0 then Generated(response.value)
    else Failed
  }

  /**
   * `checkSolution`: every row equals the upper-cased ladder word at its index. There
   * is a row for each word, and an accepted row has its word's length and no lower-case
   * letter; with no words there is nothing to check.
   */
  function IsCorrect(solution: seq<string>, userLadder: seq<string>): (ok: bool)
    ensures ok ==> |solution| <= |userLadder|
    ensures ok ==> forall i :: 0 <= i < |solution| ==>
      |userLadder[i]| == |solution[i]| && forall c :: c in userLadder[i] ==> !IsLowerLetter(c)
    ensures solution == [] ==> ok
  {
    |solution| <= |userLadder| && forall i :: 0 <= i < |solution| ==> userLadder[i] == Upper(solution[i])
  }

  /** The check is all-or-nothing: for rows of the ladder's length it holds iff the rows are the upper-cased ladder. */
  lemma CorrectIffUpperLadder(solution: seq<string>, userLadder: seq<string>)
    requires |userLadder| == |solution|
    ensures IsCorrect(solution, userLadder) <==> userLadder == seq(|solution|, i requires 0 <= i < |solution| => Upper(solution[i]))
  {
  }

  /** A row the solver may type into: every row except the first and the last (read-only inputs). */
  predicate Editable(solution: seq<string>, index: int) {
    0 < index < |solution| - 1
  }

  /** The rows below `n` the solver may type into. */
  function EditableBelow(solution: seq<string>, n: int): set<int> {
    set i | 0 <= i < n && Editable(solution, i)
  }

  /** Moves shown on success: `solution.length - 2`. */
  function ReportedMoves(solution: seq<string>): int {
    |solution| - 2
  }

  /**
   * For a ladder of at least two words the move count shown is the number of rows the
   * solver types; a one-word ladder, which generation accepts, is shown as -1 moves.
   */
  lemma MovesAreEditableRows(solution: seq<string>)
    requires |solution| > 0
    ensures |solution| >= 2 ==> ReportedMoves(solution) == |EditableBelow(solution, |solution|)|
    ensures |solution| == 1 ==> ReportedMoves(solution) == -1 && EditableBelow(solution, |solution|) == {}
  {
    EditableCount(solution, |solution|);
  }

  lemma {:induction false} EditableCount(solution: seq<string>, n: nat)
    requires n <= |solution|
    ensures |EditableBelow(solution, n)| == if n <= 1 then 0 else if n < |solution| then n - 1 else n - 2
  {
    if n > 0 {
      EditableCount(solution, n - 1);
      if Editable(solution, n - 1) {
        assert EditableBelow(solution, n) == EditableBelow(solution, n - 1) + {n - 1};
      } else {
        assert EditableBelow(solution, n) == EditableBelow(solution, n - 1);
      }
    } else {
      assert EditableBelow(solution, n) == {};
    }
  }

  /** The play phase of one ladder: the authoritative ladder and the solver's rows. */
  class LadderGame {
    const solution: seq<string>
    var userLadder: seq<string>
    var solved: bool

    ghost predicate Valid()
      reads this
    {
      |solution| > 0 && |userLadder| == |solution|
      && userLadder[0] == "" && userLadder[|userLadder| - 1] == ""
    }

    /**
     * Ingestion of a generated ladder (and the exported player's start): one empty
     * row per ladder step, nothing solved.
     */
    constructor Ingest(ladder: seq<string>)
      requires |ladder| > 0
      ensures Valid()
      ensures solution == ladder && !solved
      ensures userLadder == seq(|ladder|, _ => "")
    {
      solution := ladder;
      userLadder := seq(|ladder|, _ => "");
      solved := false;
    }

    /** `handleInputChange`: the row at `index` becomes the upper-cased value; no other row changes. */
    method InputChange(index: nat, value: string)
      requires index < |userLadder|
      modifies this
      ensures userLadder == old(userLadder)[index := Upper(value)]
      ensures solved == old(solved)
    {
      userLadder := userLadder[index := Upper(value)];
    }

    /** Typing into a row: the read-only first and last rows never reach `handleInputChange`. */
    method Type(index: nat, value: string)
      requires Valid() && index < |userLadder|
      modifies this
      ensures Valid()
      ensures userLadder == if Editable(solution, index) then old(userLadder)[index := Upper(value)] else old(userLadder)
      ensures solved == old(solved)
    {
      if Editable(solution, index) {
        InputChange(index, value);
      }
    }

    /** `checkSolution`: solved exactly when every row, the two end rows included, matches. */
    method CheckSolution()
      requires Valid()
      modifies this
      ensures Valid() && userLadder == old(userLadder)
      ensures solved == (old(solved) || IsCorrect(solution, userLadder))
    {
      if IsCorrect(solution, userLadder) {
        solved := true;
      }
    }
  }

  /**
   * Because the end rows stay empty, the check can only succeed when both end words
   * of the ladder are empty strings: with a real start or end word it always fails.
   */
  lemma EndsBlockSuccess(solution: seq<string>, userLadder: seq<string>)
    requires |solution| > 0 && |userLadder| == |solution|
    requires userLadder[0] == "" && userLadder[|userLadder| - 1] == ""
    requires solution[0] != "" || solution[|solution| - 1] != ""
    ensures !IsCorrect(solution, userLadder)
  {
    if solution[0] != "" {
      assert |Upper(solution[0])| > 0;
    } else {
      assert |Upper(solution[|solution| - 1])| > 0;
    }
  }

  /**
   * The example ladder COLD-CORD-CARD-WARD, typed exactly into its two interior rows:
   * the written check rejects it, because the untouched end rows are empty.
   */
  lemma ExactLadderRejected()
    ensures !IsCorrect(["COLD", "CORD", "CARD", "WARD"], ["", "CORD", "CARD", ""])
  {
    var ladder: seq<string> := ["COLD", "CORD", "CARD", "WARD"];
    var rows: seq<string> := ["", "CORD", "CARD", ""];
    assert |Upper(ladder[0])| == 4;
    assert rows[0] != Upper(ladder[0]);
  }

  /** The example ladder COLD-CORD-CARD-WARD rejects a wrong interior row. */
  lemma InteriorMismatchFails()
    ensures !IsCorrect(["COLD", "CORD", "CARD", "WARD"], ["COLD", "CORE", "CARD", "WARD"])
  {
    var rows: seq<string> := ["COLD", "CORE", "CARD", "WARD"];
    assert Upper("CORD")[3] == 'D' != rows[1][3];
  }
}
