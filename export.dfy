/**
 * The deterministic part of services/exportService.ts: which player component is
 * embedded for each puzzle type, which component the page renders, and the name of
 * the downloaded file. The embedded players themselves are modelled beside the in-app
 * components they repeat.
 */
module Export {
  import opened Text

  datatype PuzzleType = SlidingTile | WordGuess | Crossword | WordLadder | Chess | WordSearch

  /** The enum's string values. */
  function Tag(t: PuzzleType): string {
    match t
      case SlidingTile => "SLIDING_TILE"
      case WordGuess => "WORD_GUESS"
      case Crossword => "CROSSWORD"
      case WordLadder => "WORD_LADDER"
      case Chess => "CHESS"
      case WordSearch => "WORD_SEARCH"
  }

  /** An embedded player's source text, known here by the component it declares. */
  datatype PlayerCode = PlayerCode(declares: string)

  const AllTypes: set<PuzzleType> := {SlidingTile, WordGuess, Crossword, WordLadder, Chess, WordSearch}

  /** `playerComponentMap`. */
  const PlayerComponentMap: map<PuzzleType, PlayerCode> := map[
    SlidingTile := PlayerCode("SlidingTilePuzzlePlayer"),
    WordGuess := PlayerCode("WordGuessPuzzlePlayer"),
    Crossword := PlayerCode("CrosswordPuzzlePlayer"),
    WordLadder := PlayerCode("WordLadderPuzzlePlayer"),
    Chess := PlayerCode("ChessPuzzlePlayer"),
    WordSearch := PlayerCode("WordSearchPlayer")]

  /** `playerAppNameMap`. */
  const PlayerAppNameMap: map<PuzzleType, string> := map[
    SlidingTile := "SlidingTilePuzzlePlayer",
    WordGuess := "WordGuessPuzzlePlayer",
    Crossword := "CrosswordPuzzlePlayer",
    WordLadder := "WordLadderPuzzlePlayer",
    Chess := "ChessPuzzlePlayer",
    WordSearch := "WordSearchPlayer"]

  /**
   * Both maps cover every puzzle type, the page renders the very component the embedded
   * code declares, and no two types share a player.
   */
  lemma MapsConsistent()
    ensures forall t: PuzzleType :: t in AllTypes
    ensures PlayerComponentMap.Keys == AllTypes && PlayerAppNameMap.Keys == AllTypes
    ensures forall t :: t in AllTypes ==> PlayerComponentMap[t].declares == PlayerAppNameMap[t]
    ensures forall t, u :: t in AllTypes && u in AllTypes && t != u ==> PlayerAppNameMap[t] != PlayerAppNameMap[u]
  {
    forall t: PuzzleType ensures t in AllTypes {
      match t
      case SlidingTile =>
      case WordGuess =>
      case Crossword =>
      case WordLadder =>
      case Chess =>
      case WordSearch =>
    }
    forall t | t in AllTypes ensures PlayerComponentMap[t].declares == PlayerAppNameMap[t] {
      match t
      case SlidingTile =>
      case WordGuess =>
      case Crossword =>
      case WordLadder =>
      case Chess =>
      case WordSearch =>
    }
  }

  /** `generateHtml`'s choice: the player code to embed and the component to render. */
  function Player(t: PuzzleType): (r: (PlayerCode, string))
    ensures r.0.declares == r.1
  {
    MapsConsistent();
    (PlayerComponentMap[t], PlayerAppNameMap[t])
  }

  /** `.replace(/_/g, '-')`. */
  function Dashes(s: string): (r: string)
    ensures |r| == |s| && '_' !in r
    ensures forall i :: 0 <= i < |s| ==> r[i] == (if s[i] == '_' then '-' else s[i])
  {
    seq(|s|, i requires 0 <= i < |s| => if s[i] == '_' then '-' else s[i])
  }

  const Suffix: string := "-puzzle.html"

  /** The `download` name of the exported file. */
  function DownloadName(t: PuzzleType): string {
    Dashes(Lower(Tag(t))) + Suffix
  }

  /** A tag is upper-case letters and underscores. */
  predicate IsTagShaped(s: string) {
    forall i :: 0 <= i < |s| ==> IsUpperLetter(s[i]) || s[i] == '_'
  }

  /** Lower-casing then dashing a tag loses nothing: distinct tags give distinct slugs. */
  lemma SlugInjective(a: string, b: string)
    requires IsTagShaped(a) && IsTagShaped(b) && Dashes(Lower(a)) == Dashes(Lower(b))
    ensures a == b
  {
    assert |a| == |b|;
    forall i | 0 <= i < |a| ensures a[i] == b[i] {
      assert Dashes(Lower(a))[i] == Dashes(Lower(b))[i];
      assert Lower(a)[i] == LowerChar(a[i]) && Lower(b)[i] == LowerChar(b[i]);
    }
  }

  /** The file name is the lower-case, dashed tag followed by `-puzzle.html`, and no two types share one. */
  lemma DownloadNamesDistinct(t: PuzzleType, u: PuzzleType)
    requires t != u
    ensures DownloadName(t) != DownloadName(u)
  {
    assert IsTagShaped(Tag(t)) && IsTagShaped(Tag(u));
    if DownloadName(t) == DownloadName(u) {
      var x, y := Dashes(Lower(Tag(t))), Dashes(Lower(Tag(u)));
      assert x == (x + Suffix)[..|x|];
      assert |x| == |y|;
      assert x == y;
      SlugInjective(Tag(t), Tag(u));
      TagInjective(t, u);
    }
  }

  lemma TagInjective(t: PuzzleType, u: PuzzleType)
    requires Tag(t) == Tag(u)
    ensures t == u
  {
    match t
    case SlidingTile => assert Tag(u)[1] == 'L';
    case WordGuess => assert Tag(u)[5] == 'G';
    case Crossword => assert |Tag(u)| == 9 && Tag(u)[0] == 'C';
    case WordLadder => assert Tag(u)[5] == 'L';
    case Chess => assert |Tag(u)| == 5;
    case WordSearch => assert Tag(u)[5] == 'S';
  }

  /** The names contain no underscore and no capital letter. */
  lemma DownloadNameShape(t: PuzzleType)
    ensures '_' !in DownloadName(t)
    ensures forall i :: 0 <= i < |DownloadName(t)| ==> !IsUpperLetter(DownloadName(t)[i])
  {
    var x := Dashes(Lower(Tag(t)));
    forall i | 0 <= i < |x| ensures !IsUpperLetter(x[i]) {
      assert Lower(Tag(t))[i] == LowerChar(Tag(t)[i]);
    }
  }

  lemma WordSearchDownloadName()
    ensures DownloadName(WordSearch) == "word-search-puzzle.html"
  {
    var l := Lower("WORD_SEARCH");
    assert l == "word_search" by {
      forall i | 0 <= i < 11 ensures l[i] == "word_search"[i] {
        assert l[i] == LowerChar("WORD_SEARCH"[i]);
      }
    }
    assert Dashes(l) == "word-search";
  }
}
