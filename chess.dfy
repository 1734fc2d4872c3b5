/**
 * The mate-in-one variant (components/puzzles/ChessPuzzle.tsx): the move check,
 * which compares moves in Standard Algebraic Notation (PGN standard, section 8.2.3)
 * after dropping check/mate marks, white space and case, and the board shown from
 * the piece-placement field of a FEN string (PGN standard, section 16.1).
 */
module Chess {
  import opened Common
  import opened Text

  /** A generated puzzle: position, the mating move and a description (types.ts:26-30). */
  datatype ChessPuzzleData = ChessPuzzleData(fen: string, solution: string, description: string)

  /** `handleGenerate`: refused without a secret; otherwise the provider's answer decides. */
  function Generate(secret: Secret, response: Option<ChessPuzzleData>): (g: Generation<ChessPuzzleData>)
    ensures g.Refused? <==> !HasSecret(secret)
    ensures g.Failed? <==> HasSecret(secret) && response.None?
    ensures g.Generated? ==> response == Some(g.content)
  {
    if !HasSecret(secret) then Refused
    else match response
      case None => Failed
      case Some(data) => Generated(data)
  }

  /** The characters matched by `/[+#\s]/`. */
  predicate IsDecoration(c: char) {
    c == '+' || c == '#' || IsSpace(c)
  }

  /** `s.replace(/[+#\s]/g, '')`: every decoration character removed, the rest kept in order. */
  function Strip(s: string): (r: string)
    ensures |r| <= |s|
    ensures forall i :: 0 <= i < |r| ==> !IsDecoration(r[i])
    ensures forall c :: c in r ==> c in s
  {
    if s == [] then []
    else (if IsDecoration(s[0]) then [] else [s[0]]) + Strip(s[1..])
  }

  /**
   * The normal form both moves are brought to before they are compared: decorations
   * removed, then lower-cased. The two steps may be taken in either order.
   */
  function Normalize(s: string): (r: string)
    ensures |r| == |Strip(s)| <= |s|
    ensures r == Strip(Lower(s))
  {
    StripLower(s);
    Lower(Strip(s))
  }

  /** Lower-casing never makes or removes a decoration, so it commutes with the replace. */
  lemma {:induction false} StripLower(s: string)
    ensures Strip(Lower(s)) == Lower(Strip(s))
  {
    if s != [] {
      StripLower(s[1..]);
      LowerCons(s[0], s[1..]);
      assert [s[0]] + s[1..] == s;
      if !IsDecoration(s[0]) {
        LowerCons(s[0], Strip(s[1..]));
      }
    }
  }

  /** Lower-casing works character by character and keeps decorations as they are. */
  lemma LowerCons(c: char, s: string)
    ensures Lower([c] + s) == [LowerChar(c)] + Lower(s)
    ensures IsDecoration(LowerChar(c)) <==> IsDecoration(c)
  {
    assert Lower([c] + s)[1..] == Lower(s);
  }

  /**
   * `checkSolution`: the move is accepted when both normal forms are equal. Moves equal
   * up to decorations, or up to case, are accepted; accepted moves have equally many
   * characters once decorations are gone.
   */
  function IsCorrectMove(userMove: string, solution: string): (ok: bool)
    ensures Strip(userMove) == Strip(solution) ==> ok
    ensures Lower(userMove) == Lower(solution) ==> ok
    ensures ok ==> |Strip(userMove)| == |Strip(solution)|
  {
    Normalize(userMove) == Normalize(solution)
  }

  /** The normal form holds no `+`, `#`, white space or upper-case letter. */
  lemma NormalizeClean(s: string)
    ensures forall i :: 0 <= i < |Normalize(s)| ==>
      !IsDecoration(Normalize(s)[i]) && !IsUpperLetter(Normalize(s)[i])
  {
    var t := Strip(s);
    forall i | 0 <= i < |t| ensures !IsDecoration(LowerChar(t[i])) {
      assert !IsDecoration(t[i]);
    }
  }

  lemma {:induction false} StripAppend(a: string, b: string)
    ensures Strip(a + b) == Strip(a) + Strip(b)
  {
    if a != [] {
      assert (a + b)[1..] == a[1..] + b;
      StripAppend(a[1..], b);
    } else {
      assert a + b == b;
    }
  }

  /** Stripping a string that holds no decoration leaves it as it is. */
  lemma {:induction false} StripClean(s: string)
    requires forall i :: 0 <= i < |s| ==> !IsDecoration(s[i])
    ensures Strip(s) == s
  {
    if s != [] {
      StripClean(s[1..]);
    }
  }

  /** Normalising is idempotent: a normal form is its own normal form. */
  lemma NormalizeIdempotent(s: string)
    ensures Normalize(Normalize(s)) == Normalize(s)
  {
    var n := Normalize(s);
    NormalizeClean(s);
    StripClean(n);
    assert forall i :: 0 <= i < |n| ==> LowerChar(n[i]) == n[i];
  }

  /** Decorations may be added anywhere, in any number, without changing the verdict. */
  lemma DecorationIgnored(a: string, d: string, b: string, solution: string)
    requires forall i :: 0 <= i < |d| ==> IsDecoration(d[i])
    ensures IsCorrectMove(a + d + b, solution) <==> IsCorrectMove(a + b, solution)
  {
    StripAppend(a + d, b);
    StripAppend(a, d);
    StripAppend(a, b);
    StripNone(d);
    assert Strip(a + d) == Strip(a);
    assert Strip(a + d + b) == Strip(a + b);
  }

  lemma {:induction false} StripNone(d: string)
    requires forall i :: 0 <= i < |d| ==> IsDecoration(d[i])
    ensures Strip(d) == []
  {
    if d != [] {
      StripNone(d[1..]);
    }
  }

  /** Check and mate marks and case do not matter: "Qh7#" is accepted for "qh7+". */
  lemma MateMarkAccepted()
    ensures IsCorrectMove("Qh7#", "qh7+")
  {
    assert Strip("Qh7#") == "Qh7";
    assert Strip("qh7+") == "qh7";
  }

  /** A different move in notation is rejected: "Qh7" is not "Qxh7". */
  lemma CaptureMarkMatters()
    ensures !IsCorrectMove("Qh7", "Qxh7")
  {
    assert |Normalize("Qh7")| == 3;
    assert Strip("Qxh7") == "Qxh7";
  }

  /** What one board square shows: nothing, a piece glyph, or `undefined` for an unknown letter. */
  datatype Square = Empty | Piece(glyph: char) | Unmapped

  /** `pieceMap`: the twelve FEN piece letters and their Unicode chess glyphs. */
  function PieceGlyph(c: char): Option<char> {
    match c
    case 'r' => Some('\U{265C}') case 'n' => Some('\U{265E}') case 'b' => Some('\U{265D}')
    case 'q' => Some('\U{265B}') case 'k' => Some('\U{265A}') case 'p' => Some('\U{265F}')
    case 'R' => Some('\U{2656}') case 'N' => Some('\U{2658}') case 'B' => Some('\U{2657}')
    case 'Q' => Some('\U{2655}') case 'K' => Some('\U{2654}') case 'P' => Some('\U{2659}')
    case _ => None
  }

  /** The squares one character of a placement row stands for. */
  function ExpandChar(c: char): seq<Square> {
    if IsDigit(c) then seq(DigitValue(c), _ => Empty)
    else match PieceGlyph(c)
      case Some(g) => [Piece(g)]
      case None => [Unmapped]
  }

  /** The squares of one placement row, character by character from the left. */
  function ExpandRow(row: string): seq<Square> {
    if row == [] then [] else ExpandRow(row[..|row| - 1]) + ExpandChar(row[|row| - 1])
  }

  /** Sum of the digit values in a row. */
  function DigitSum(row: string): nat {
    if row == [] then 0
    else DigitSum(row[..|row| - 1]) + (if IsDigit(row[|row| - 1]) then DigitValue(row[|row| - 1]) else 0)
  }

  /** Number of characters in a row that are not digits. */
  function NonDigits(row: string): nat {
    if row == [] then 0
    else NonDigits(row[..|row| - 1]) + (if IsDigit(row[|row| - 1]) then 0 else 1)
  }

  /** A row is as wide as its digit values plus its non-digit characters. */
  lemma {:induction false} RowWidth(row: string)
    ensures |ExpandRow(row)| == DigitSum(row) + NonDigits(row)
  {
    if row != [] {
      RowWidth(row[..|row| - 1]);
    }
  }

  /** The piece-placement field: the text before the first space (`fen.split(' ')[0]`). */
  function Placement(fen: string): string {
    Split(fen, ' ')[0]
  }

  /** The rows of the placement field (`split('/')`). */
  function Rows(fen: string): (rows: seq<string>)
    ensures |rows| == Occurrences(Placement(fen), '/') + 1
  {
    Split(Placement(fen), '/')
  }

  /**
   * `board`: one row of squares per `/`-separated placement row, each row built by
   * pushing a glyph per letter and one empty square per unit of a digit.
   */
  method ExpandBoard(fen: string) returns (board: seq<seq<Square>>)
    ensures |board| == Occurrences(Placement(fen), '/') + 1
    ensures forall r :: 0 <= r < |board| ==> board[r] == ExpandRow(Rows(fen)[r])
    ensures forall r :: 0 <= r < |board| ==> |board[r]| == DigitSum(Rows(fen)[r]) + NonDigits(Rows(fen)[r])
  {
    var rows := Rows(fen);
    board := [];
    for r := 0 to |rows|
      invariant |board| == r
      invariant forall q :: 0 <= q < r ==> board[q] == ExpandRow(rows[q])
    {
      var row := rows[r];
      var boardRow: seq<Square> := [];
      for j := 0 to |row|
        invariant boardRow == ExpandRow(row[..j])
      {
        var c := row[j];
        assert row[..j + 1][..j] == row[..j];
        if !IsDigit(c) {
          boardRow := boardRow + ExpandChar(c);
        } else {
          var n := DigitValue(c);
          var i := 0;
          while i < n
            invariant 0 <= i <= n
            invariant boardRow == ExpandRow(row[..j]) + seq(i, _ => Empty)
          {
            boardRow := boardRow + [Empty];
            i := i + 1;
          }
        }
      }
      assert row[..|row|] == row;
      board := board + [boardRow];
    }
    forall r | 0 <= r < |board|
      ensures |board[r]| == DigitSum(rows[r]) + NonDigits(rows[r])
    {
      RowWidth(rows[r]);
    }
  }

  /** Rows concatenate: the squares of `a + b` are those of `a` followed by those of `b`. */
  lemma {:induction false} ExpandRowAppend(a: string, b: string)
    ensures ExpandRow(a + b) == ExpandRow(a) + ExpandRow(b)
  {
    if b == [] {
      assert a + b == a;
    } else {
      assert (a + b)[..|a + b| - 1] == a + b[..|b| - 1];
      ExpandRowAppend(a, b[..|b| - 1]);
    }
  }

  lemma ExpandOne(c: char)
    ensures ExpandRow([c]) == ExpandChar(c)
  {
    assert [c][..0] == [];
  }

  /** A row of a mate position: "4k3" is four empty squares, the black king, three empty squares. */
  lemma KingRow()
    ensures ExpandRow("4k3") == seq(4, _ => Empty) + [Piece('\U{265A}')] + seq(3, _ => Empty)
  {
    assert "4k3" == ['4'] + ['k'] + ['3'];
    ExpandRowAppend(['4'] + ['k'], ['3']);
    ExpandRowAppend(['4'], ['k']);
    ExpandOne('4');
    ExpandOne('k');
    ExpandOne('3');
  }
}
