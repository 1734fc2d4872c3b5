/**
 * The word-guess variant (components/puzzles/WordGuessPuzzle.tsx and the exported player
 * in services/exportService.ts): a five-letter secret word, at most six guesses, each
 * guess scored letter by letter as correct (green), present (yellow) or absent.
 */
module WordGuess {
  import opened Common
  import opened Text

  const WordLength: nat := 5
  const MaxGuesses: nat := 6
  /** The marker the scoring writes over solution letters already matched. */
  const Used: char := '_'
  const TooShortMessage: string := "Guess must be 5 letters long."

  datatype LetterStatus = Correct | Present | Absent

  datatype Guess = Guess(word: string, statuses: seq<LetterStatus>)

  function Min(a: int, b: int): int {
    if a <= b then a else b
  }

  /**
   * Reference scoring. Greens are the positions where guess and solution agree. The
   * other guess letters, from left to right, each claim one solution letter that is
   * neither green nor already claimed; a guess letter that finds one is present.
   */

  /** How many non-green positions before i hold the guess letter c. */
  function Earlier(g: string, s: string, i: nat, c: char): nat
    requires i <= |g| == |s|
  {
    if i == 0 then 0
    else Earlier(g, s, i - 1, c) + (if g[i - 1] == c && g[i - 1] != s[i - 1] then 1 else 0)
  }

  /** How many non-green positions before n hold the solution letter c. */
  function Unmatched(g: string, s: string, n: nat, c: char): nat
    requires n <= |g| == |s|
  {
    if n == 0 then 0
    else Unmatched(g, s, n - 1, c) + (if s[n - 1] == c && g[n - 1] != s[n - 1] then 1 else 0)
  }

  /** Solution letters c that a non-green guess letter may claim. */
  function Avail(g: string, s: string, c: char): nat
    requires |g| == |s|
  {
    Unmatched(g, s, |s|, c)
  }

  function Status(g: string, s: string, i: nat): LetterStatus
    requires i < |g| == |s|
  {
    if g[i] == s[i] then Correct
    else if Earlier(g, s, i, g[i]) < Avail(g, s, g[i]) then Present
    else Absent
  }

  function Feedback(g: string, s: string): (r: seq<LetterStatus>)
    requires |g| == |s|
    ensures |r| == |g| && forall i :: 0 <= i < |g| ==> r[i] == Status(g, s, i)
  {
    seq(|g|, i requires 0 <= i < |g| => Status(g, s, i))
  }

  /** The solution after the first pass: greens overwritten with the marker. */
  function Masked(g: string, s: string): (r: string)
    requires |g| == |s|
    ensures |r| == |s|
  {
    seq(|s|, j requires 0 <= j < |s| => if g[j] == s[j] then Used else s[j])
  }

  lemma {:induction false} MaskedCount(g: string, s: string, n: nat, c: char)
    requires n <= |g| == |s| && c != Used
    ensures CountUpTo(Masked(g, s), n, c) == Unmatched(g, s, n, c)
  {
    if n > 0 {
      MaskedCount(g, s, n - 1, c);
    }
  }

  lemma {:induction false} CountPositive(w: string, n: nat, c: char)
    requires n <= |w|
    ensures CountUpTo(w, n, c) > 0 <==> exists j :: 0 <= j < n && w[j] == c
  {
    if n > 0 {
      CountPositive(w, n - 1, c);
    }
  }

  lemma {:induction false} CountBlank(w: string, k: nat, n: nat, c: char)
    requires k < |w| && n <= |w| && c != Used
    ensures CountUpTo(w[k := Used], n, c) == CountUpTo(w, n, c) - (if k < n && w[k] == c then 1 else 0)
  {
    if n > 0 {
      CountBlank(w, k, n - 1, c);
    }
  }

  /** Index of the first c in w. */
  function FirstIndexOf(w: string, c: char): (k: nat)
    requires c in w
    ensures k < |w| && w[k] == c && forall j :: 0 <= j < k ==> w[j] != c
  {
    if w[0] == c then 0 else 1 + FirstIndexOf(w[1..], c)
  }

  /**
   * The working copy of the solution once the second pass has handled the positions
   * before i: each non-green guess letter found in it has blanked out its first copy.
   */
  ghost function Work(g: string, s: string, i: nat): (w: string)
    requires i <= |g| == |s|
    ensures |w| == |s|
  {
    if i == 0 then Masked(g, s)
    else
      var w := Work(g, s, i - 1);
      if g[i - 1] != s[i - 1] && g[i - 1] in w then w[FirstIndexOf(w, g[i - 1]) := Used] else w
  }

  lemma {:induction false} WorkCount(g: string, s: string, i: nat, c: char)
    requires i <= |g| == |s| && c != Used
    ensures CountUpTo(Work(g, s, i), |s|, c) == Avail(g, s, c) - Min(Earlier(g, s, i, c), Avail(g, s, c))
  {
    if i == 0 {
      MaskedCount(g, s, |s|, c);
    } else {
      WorkCount(g, s, i - 1, c);
      var w := Work(g, s, i - 1);
      var e, avail := Earlier(g, s, i - 1, c), Avail(g, s, c);
      CountPositive(w, |s|, c);
      assert c in w <==> e < avail;
      if g[i - 1] != s[i - 1] && g[i - 1] in w {
        CountBlank(w, FirstIndexOf(w, g[i - 1]), |s|, c);
      }
    }
  }

  /** Position i is present exactly when its letter is still in the working copy. */
  lemma PresentIffInWork(g: string, s: string, i: nat)
    requires i < |g| == |s| && g[i] != s[i] && g[i] != Used
    ensures Status(g, s, i) == Present <==> g[i] in Work(g, s, i)
  {
    WorkCount(g, s, i, g[i]);
    CountPositive(Work(g, s, i), |s|, g[i]);
  }

  /** `indexOf` on the working copy of the solution letters. */
  method IndexOf(a: array<char>, c: char) returns (k: int)
    ensures -1 <= k < a.Length
    ensures k == -1 <==> c !in a[..]
    ensures 0 <= k ==> a[k] == c && forall j :: 0 <= j < k ==> a[j] != c
  {
    k := 0;
    while k < a.Length
      invariant 0 <= k <= a.Length
      invariant forall j :: 0 <= j < k ==> a[j] != c
    {
      if a[k] == c {
        return;
      }
      k := k + 1;
    }
    k := -1;
  }

  /** The first pass: greens marked, and blanked out of a copy of the solution. */
  method MarkGreens(guess: string, solution: string) returns (st: array<LetterStatus>, letters: array<char>)
    requires |guess| == WordLength && |solution| == WordLength
    ensures fresh(st) && fresh(letters)
    ensures st.Length == WordLength && letters[..] == Masked(guess, solution)
    ensures forall j :: 0 <= j < WordLength ==> st[j] == (if guess[j] == solution[j] then Correct else Absent)
  {
    st := new LetterStatus[WordLength](_ => Absent);
    letters := new char[WordLength](j requires 0 <= j < WordLength => solution[j]);
    ghost var masked := Masked(guess, solution);
    for i := 0 to WordLength
      invariant forall j :: 0 <= j < i ==>
        st[j] == (if guess[j] == solution[j] then Correct else Absent) && letters[j] == masked[j]
      invariant forall j :: i <= j < WordLength ==> st[j] == Absent && letters[j] == solution[j]
    {
      if guess[i] == solution[i] {
        st[i] := Correct;
        letters[i] := Used;
      }
    }
  }

  /**
   * The second pass: each non-green guess letter is looked up in the working copy; one
   * that is found is present, and the letter it found is blanked out.
   */
  method MarkPresents(guess: string, solution: string, st: array<LetterStatus>, letters: array<char>)
    requires |guess| == |solution| == st.Length && Used !in guess
    requires letters[..] == Masked(guess, solution)
    requires forall j :: 0 <= j < st.Length ==> st[j] == (if guess[j] == solution[j] then Correct else Absent)
    modifies st, letters
    ensures st[..] == Feedback(guess, solution)
  {
    for i := 0 to st.Length
      invariant st[..i] == Feedback(guess, solution)[..i]
      invariant forall j :: i <= j < st.Length ==> st[j] == (if guess[j] == solution[j] then Correct else Absent)
      invariant letters[..] == Work(guess, solution, i)
    {
      if st[i] != Correct {
        PresentIffInWork(guess, solution, i);
        var k := IndexOf(letters, guess[i]);
        if k != -1 {
          assert k == FirstIndexOf(Work(guess, solution, i), guess[i]);
          st[i] := Present;
          letters[k] := Used;
        }
      }
      assert st[i] == Feedback(guess, solution)[i];
      assert st[..i + 1] == st[..i] + [st[i]];
    }
    assert st[..] == st[..st.Length];
  }

  /**
   * The scoring in `handleGuessSubmit`: greens first, then presents, over a working copy
   * of the solution. The result is the reference scoring.
   */
  method Score(guess: string, solution: string) returns (statuses: seq<LetterStatus>)
    requires |guess| == WordLength && |solution| == WordLength && Used !in guess
    ensures statuses == Feedback(guess, solution)
  {
    var st, letters := MarkGreens(guess, solution);
    MarkPresents(guess, solution, st, letters);
    statuses := st[..];
  }

  /** Occurrences of c in the first n letters. */
  function CountUpTo(s: string, n: nat, c: char): nat
    requires n <= |s|
  {
    if n == 0 then 0 else CountUpTo(s, n - 1, c) + (if s[n - 1] == c then 1 else 0)
  }

  /** Greens on the letter c among the first n positions. */
  function GreensUpTo(g: string, s: string, n: nat, c: char): nat
    requires n <= |g| == |s|
  {
    if n == 0 then 0 else GreensUpTo(g, s, n - 1, c) + (if g[n - 1] == c && s[n - 1] == c then 1 else 0)
  }

  /** Guess letters c among the first n positions scored correct or present. */
  function MarkedUpTo(g: string, s: string, n: nat, c: char): nat
    requires n <= |g| == |s|
  {
    if n == 0 then 0
    else MarkedUpTo(g, s, n - 1, c) + (if g[n - 1] == c && Status(g, s, n - 1) != Absent then 1 else 0)
  }

  lemma {:induction false} CountIsMultiset(s: string, n: nat, c: char)
    requires n <= |s|
    ensures CountUpTo(s, n, c) == multiset(s[..n])[c]
  {
    if n > 0 {
      CountIsMultiset(s, n - 1, c);
      assert s[..n] == s[..n - 1] + [s[n - 1]];
    }
  }

  lemma {:induction false} CountsSplit(g: string, s: string, n: nat, c: char)
    requires n <= |g| == |s|
    ensures CountUpTo(g, n, c) == GreensUpTo(g, s, n, c) + Earlier(g, s, n, c)
    ensures CountUpTo(s, n, c) == GreensUpTo(g, s, n, c) + Unmatched(g, s, n, c)
  {
    if n > 0 {
      CountsSplit(g, s, n - 1, c);
    }
  }

  lemma {:induction false} MarkedPrefix(g: string, s: string, n: nat, c: char)
    requires n <= |g| == |s|
    ensures MarkedUpTo(g, s, n, c) == GreensUpTo(g, s, n, c) + Min(Earlier(g, s, n, c), Avail(g, s, c))
  {
    if n > 0 {
      MarkedPrefix(g, s, n - 1, c);
    }
  }

  /**
   * However a letter repeats, the guess gets as many green or yellow tiles on it as the
   * smaller of its counts in the guess and in the solution.
   */
  lemma MarkedIsMinCount(g: string, s: string, c: char)
    requires |g| == |s|
    ensures MarkedUpTo(g, s, |g|, c) == Min(multiset(g)[c], multiset(s)[c])
  {
    MarkedPrefix(g, s, |g|, c);
    CountsSplit(g, s, |g|, c);
    CountIsMultiset(g, |g|, c);
    CountIsMultiset(s, |s|, c);
    assert g[..|g|] == g && s[..|s|] == s;
  }

  /** Every tile is green exactly when the guess is the solution. */
  lemma AllCorrectIffSolution(g: string, s: string)
    requires |g| == |s|
    ensures (forall i :: 0 <= i < |g| ==> Feedback(g, s)[i] == Correct) <==> g == s
  {
    if forall i :: 0 <= i < |g| ==> Feedback(g, s)[i] == Correct {
      forall i | 0 <= i < |g| ensures g[i] == s[i] {
        assert Feedback(g, s)[i] == Correct;
      }
    }
  }

  /** Two E's in the guess, two unmatched E's in the solution: both are present. */
  lemma SpeedAgainstErase()
    ensures Feedback("SPEED", "ERASE") == [Present, Absent, Present, Present, Absent]
  {
    var g, s := "SPEED", "ERASE";
    assert Unmatched(g, s, 1, 'E') == 1 && Unmatched(g, s, 2, 'E') == 1 && Unmatched(g, s, 3, 'E') == 1;
    assert Unmatched(g, s, 4, 'E') == 1 && Unmatched(g, s, 5, 'E') == 2;
    assert Unmatched(g, s, 3, 'S') == 0 && Unmatched(g, s, 4, 'S') == 1 && Unmatched(g, s, 5, 'S') == 1;
    assert Unmatched(g, s, 5, 'P') == 0;
    assert Unmatched(g, s, 5, 'D') == 0;
    assert Earlier(g, s, 1, 'E') == 0 && Earlier(g, s, 2, 'E') == 0 && Earlier(g, s, 3, 'E') == 1;
  }

  /** A green claims its letter first: the earlier duplicate in the guess is absent. */
  lemma GreenBeatsEarlierDuplicate()
    ensures Feedback("LLAMA", "PLANT")[..3] == [Absent, Correct, Correct]
  {
    var g, s := "LLAMA", "PLANT";
    assert Unmatched(g, s, 5, 'L') == 0;
  }

  /** The test `/^[a-zA-Z]+$/`: one letter followed by zero or more letters. */
  predicate Letters(s: string) {
    s != [] && IsLetter(s[0]) && (|s| == 1 || Letters(s[1..]))
  }

  lemma {:induction false} LettersIff(s: string)
    ensures Letters(s) <==> s != [] && forall i :: 0 <= i < |s| ==> IsLetter(s[i])
  {
    if |s| > 1 {
      LettersIff(s[1..]);
      assert forall i :: 1 <= i < |s| ==> s[i] == s[1..][i - 1];
    }
  }

  /**
   * `handleStart`: play starts for a five-letter word of ASCII letters and a secret,
   * exactly the words `WordGuessGame.Start` accepts; otherwise the author is alerted.
   */
  function CanStart(solution: string, secret: Secret): (ok: bool)
    ensures ok <==> |solution| == WordLength && (forall i :: 0 <= i < |solution| ==> IsLetter(solution[i]))
                    && HasSecret(secret)
  {
    LettersIff(solution);
    |solution| == WordLength && Letters(solution) && HasSecret(secret)
  }

  /** The play phase, in the app and in the exported player alike. */
  class WordGuessGame {
    const solution: string
    var guesses: seq<Guess>
    var currentGuess: string
    var message: string
    var solved: bool
    var lost: bool

    ghost predicate Valid()
      reads this
    {
      && |solution| == WordLength
      && (forall i :: 0 <= i < |solution| ==> IsLetter(solution[i]))
      && |currentGuess| <= WordLength
      && (forall i :: 0 <= i < |currentGuess| ==> IsUpperLetter(currentGuess[i]))
      && |guesses| <= MaxGuesses
      && !(solved && lost)
      && (|guesses| == MaxGuesses ==> solved || lost)
      && (lost ==> |guesses| == MaxGuesses)
      && (forall k :: 0 <= k < |guesses| && (k < |guesses| - 1 || !solved) ==>
            Upper(guesses[k].word) != Upper(solution))
      && (solved ==> |guesses| > 0 && Upper(guesses[|guesses| - 1].word) == Upper(solution))
      && (forall k :: 0 <= k < |guesses| ==>
            |guesses[k].word| == WordLength &&
            guesses[k].statuses == Feedback(Upper(guesses[k].word), Upper(solution)))
    }

    constructor Start(word: string)
      requires |word| == WordLength && forall i :: 0 <= i < |word| ==> IsLetter(word[i])
      ensures Valid()
      ensures solution == word && guesses == [] && currentGuess == "" && message == ""
      ensures !solved && !lost
    {
      solution := word;
      guesses := [];
      currentGuess := "";
      message := "";
      solved := false;
      lost := false;
    }

    /**
     * `handleGuessSubmit`: a short guess only sets the message; a full one is scored,
     * recorded and cleared, and the game is won on a match or lost on the sixth miss.
     */
    method SubmitGuess()
      requires Valid() && !solved && !lost
      modifies this
      ensures Valid()
      ensures |old(currentGuess)| != WordLength ==>
        message == TooShortMessage && guesses == old(guesses) && currentGuess == old(currentGuess)
        && !solved && !lost
      ensures |old(currentGuess)| == WordLength ==>
        && guesses == old(guesses) + [Guess(old(currentGuess), Feedback(Upper(old(currentGuess)), Upper(solution)))]
        && currentGuess == "" && message == ""
        && solved == (Upper(old(currentGuess)) == Upper(solution))
        && lost == (!solved && |guesses| >= MaxGuesses)
    {
      if |currentGuess| != WordLength {
        message := TooShortMessage;
        return;
      }
      var guessUpper := Upper(currentGuess);
      var solutionUpper := Upper(solution);
      assert Used !in guessUpper by {
        forall i | 0 <= i < |guessUpper| ensures guessUpper[i] != Used {
          assert IsUpperLetter(currentGuess[i]);
        }
      }
      var statuses := Score(guessUpper, solutionUpper);
      guesses := guesses + [Guess(currentGuess, statuses)];
      currentGuess := "";
      message := "";
      if guessUpper == solutionUpper {
        solved := true;
      } else if |guesses| >= MaxGuesses {
        lost := true;
      }
    }

    /** Whether a key is a single ASCII letter (`/^[a-zA-Z]$/`). */
    static predicate IsLetterKey(key: string) {
      |key| == 1 && IsLetter(key[0])
    }

    /**
     * The key handler: ignored once the game is over; Enter submits, Backspace drops the
     * last letter, a letter key is appended upper-cased while the guess is short.
     */
    method KeyDown(key: string)
      requires Valid()
      modifies this
      ensures Valid()
      ensures old(solved) || old(lost) ==>
        && guesses == old(guesses) && currentGuess == old(currentGuess) && message == old(message)
        && solved == old(solved) && lost == old(lost)
      ensures !old(solved) && !old(lost) && key == "Enter" && |old(currentGuess)| != WordLength ==>
        message == TooShortMessage && guesses == old(guesses) && currentGuess == old(currentGuess)
        && !solved && !lost
      ensures !old(solved) && !old(lost) && key == "Enter" && |old(currentGuess)| == WordLength ==>
        && guesses == old(guesses) + [Guess(old(currentGuess), Feedback(Upper(old(currentGuess)), Upper(solution)))]
        && currentGuess == "" && message == ""
        && solved == (Upper(old(currentGuess)) == Upper(solution))
        && lost == (!solved && |guesses| >= MaxGuesses)
      ensures !old(solved) && !old(lost) && key == "Backspace" ==>
        && currentGuess == (if old(currentGuess) == "" then "" else old(currentGuess)[..|old(currentGuess)| - 1])
        && guesses == old(guesses) && message == old(message) && solved == old(solved) && lost == old(lost)
      ensures !old(solved) && !old(lost) && key != "Enter" && key != "Backspace" ==>
        && guesses == old(guesses) && message == old(message) && solved == old(solved) && lost == old(lost)
        && currentGuess == (if |old(currentGuess)| < WordLength && IsLetterKey(key)
                            then old(currentGuess) + [UpperChar(key[0])] else old(currentGuess))
    {
      if solved || lost {
        return;
      }
      if key == "Enter" {
        SubmitGuess();
      } else if key == "Backspace" {
        if currentGuess != "" {
          currentGuess := currentGuess[..|currentGuess| - 1];
        }
      } else if |currentGuess| < WordLength && IsLetterKey(key) {
        currentGuess := currentGuess + [UpperChar(key[0])];
      }
    }
  }

  /** A won game's last row is all green. */
  lemma WonRowAllGreen(game: WordGuessGame)
    requires game.Valid() && game.solved
    ensures var last := game.guesses[|game.guesses| - 1];
      forall i :: 0 <= i < |last.statuses| ==> last.statuses[i] == Correct
  {
    var last := game.guesses[|game.guesses| - 1];
    AllCorrectIffSolution(Upper(last.word), Upper(game.solution));
  }

  /** A lost game used all six guesses, none of them the solution. */
  lemma LostAfterSixMisses(game: WordGuessGame)
    requires game.Valid() && game.lost
    ensures |game.guesses| == MaxGuesses
    ensures forall k :: 0 <= k < |game.guesses| ==> Upper(game.guesses[k].word) != Upper(game.solution)
  {
  }
}
