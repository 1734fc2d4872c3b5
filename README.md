# Puzzle creation program — a verified model of the puzzle logic

The program lets an author build one of six puzzles around a secret reward (a text,
a link, an image or a video) and lets a solver play it, in the app or as a standalone
exported HTML page. This project models, in Dafny, the logic that decides what a
solver's actions do and when a puzzle counts as solved:

- **Word search** (`WordSearch`): the word list typed by the author, and the drag
  selection machine. A drag selects a horizontal, vertical or diagonal line. A drag
  whose endpoints are a solution's endpoints, in either order, finds that solution's
  word. The puzzle is won when as many words are found as are listed. A walk traces
  the cells of every found word.
- **Word guess** (`WordGuess`): the two-pass scoring (green, then yellow, with
  duplicate letters consumed left to right), the five-letter key buffer, and the
  six-guess won/lost ending.
- **Sliding tile** (`SlidingTile`): tile creation, the Fisher–Yates shuffle, the
  adjacency rule of a click, the swap of positions, the move counter and the win test.
- **Crossword** (`Crossword`): the answer map and the check. The check gives
  per-cell feedback and a correct/total count over the letter cells.
- **Word ladder** (`WordLadder`): ingestion of the generated ladder, the rows typed
  by the solver, and the all-rows check.
- **Chess mate-in-one** (`Chess`): the move comparison in Standard Algebraic Notation
  (PGN standard, section 8.2.3). Check and mate marks, white space and case are
  ignored. The board display expands the piece-placement field of a FEN string
  (PGN standard, section 16.1).
- **Export** (`Export`): the two lookup tables from puzzle type to embedded player
  and player name, and the name of the downloaded file.

Shared pieces live in `Common` and `Text`:

- `Common`: the secret, an option type, and the outcome of a configuration step.
- `Text`: the JavaScript string built-ins the puzzles use, namely `split` on one
  character, `trim`, the `\s` class and upper/lower case.

## How the model is built

The components keep React state that each event handler replaces. The model follows
that design:

- Each play phase is a `class` whose fields are that state. The event handlers are
  methods with `modifies this`.
- The scans the source writes as loops are methods with loop invariants. Examples
  are the two scoring passes, the crossword grid scan, the FEN expansion, the shuffle,
  the line walks and the solution scan.
- Each such method is proved equal to an independent reference function, and the
  promised properties are lemmas about that function.
- A win test that React runs as an effect after a state change is modelled as the
  last step of the handler that made the change.

The standalone page of each puzzle (`services/exportService.ts`) embeds players that
repeat the in-app logic. Where the embedded text is the same algorithm, the same member
models both. Where it differs, the difference is modelled:

- The exported sliding-tile player starts from the saved deal without shuffling
  again (`SlidingTile.Board.FromSnapshot`).
- The exported word-search mouse-up leaves its loop with `break` instead of
  `return`. This has the same effect as the in-app `checkSelection`, which
  `WordSearchGame.MouseUp` models.

The members that model the in-app code also model these embedded copies in
services/exportService.ts:

- `WordGuess.Score` covers the scoring at lines 188-208.
- `WordGuess.WordGuessGame.SubmitGuess` covers the submit at lines 182-221.
- `WordGuess.WordGuessGame.KeyDown` covers the key handler at lines 223-236.
- `SlidingTile.Board.Click` covers the click and win test at lines 99-130.
- `Crossword.Check` covers the scan at lines 311-335.
- `WordLadder.LadderGame.Ingest` covers the start at lines 396-398.
- `WordLadder.LadderGame.CheckSolution` covers the check at lines 406-413.
- `Chess.IsCorrectMove` (with `Chess.MateMarkAccepted`) covers the comparison at lines 457-467.
- `Chess.ExpandBoard` covers the board at lines 469-488.
- `WordSearch.WordSearchGame.MouseUp` covers the mouse-up and win effect at lines 566-588.
- `WordSearch.FoundCells` covers the highlighted cells at lines 628-646.

Where the written behaviour and the intended behaviour part, the model follows the
code:

- **Word ladder.** The intended behaviour is that typing the exact ladder solves the
  puzzle. In the code, the first and last rows are read-only, so the solver never
  writes them and they stay `""`. Yet `checkSolution` compares every row, ends
  included, with the upper-cased ladder word. The check can therefore never succeed
  when the start or end word is non-empty. The model keeps the written check:
  - `WordLadder.EndsBlockSuccess` proves the general case;
  - `WordLadder.ExactLadderRejected` shows it on COLD-CORD-CARD-WARD.
- **Word search.** The puzzle is won when the number of found words equals the number
  of listed words. This compares counts, not sets:
  - `WordSearch.FewerSolutionWordsNeverWon`: the puzzle cannot be won when the
    solutions carry fewer distinct words than are listed;
  - `WordSearch.WonMeansAllFound`: only when the listed words are distinct and are
    exactly the solutions' words does winning mean that every word was found.

## Model

| member | source | states |
|---|---|---|
| Text.DigitValue | components/puzzles/ChessPuzzle.tsx:61-64 | `parseInt` of a digit character is the digit's own value, in 0..9: the character `'0'` advanced by that value |
| Text.UpperChar | components/puzzles/WordGuessPuzzle.tsx:44-45 | after upper-casing a character no lower-case letter is left; a letter stays a letter and becomes upper case; a lower-case letter becomes the upper-case letter at the same place in the alphabet; every other character is unchanged |
| Text.LowerChar | components/puzzles/ChessPuzzle.tsx:43-44 | after lower-casing a character no upper-case letter is left; a letter stays a letter and becomes lower case; an upper-case letter becomes the lower-case letter at the same place in the alphabet; every other character is unchanged |
| Text.UpperIdempotent | components/puzzles/WordGuessPuzzle.tsx:44-45 | upper-casing an already upper-cased string (the buffer holds upper-cased keys) changes nothing |
| Text.Split | components/puzzles/WordSearchPuzzle.tsx:33 | `split` yields one piece more than there are separators, and no piece contains the separator |
| Text.JoinSplit | components/puzzles/WordSearchPuzzle.tsx:33 | joining the pieces of `split` with the separator gives back the input, so splitting loses nothing |
| Text.Before | components/puzzles/ChessPuzzle.tsx:56-57 | the text before the first separator is a prefix that holds no separator and is followed by one whenever it is shorter than the input |
| Text.BeforeIsFirstPiece | components/puzzles/ChessPuzzle.tsx:56-57 | `s.split(sep)[0]` is exactly the text before the first separator |
| Text.TrimStart | components/puzzles/WordSearchPuzzle.tsx:33 | the result is a suffix of the input that does not start with white space, and every character dropped before it is white space |
| Text.TrimEnd | components/puzzles/WordSearchPuzzle.tsx:33 | the result is a prefix of the input that does not end with white space, and every character dropped after it is white space |
| Text.Trim | components/puzzles/WordSearchPuzzle.tsx:33 | `trim` leaves no white space at either end |
| Text.TrimIsSlice | components/puzzles/WordSearchPuzzle.tsx:33 | `trim` returns the slice `s[a..b]` of its input, where everything before `a` and from `b` on is white space; with the previous row this fixes the result |
| Text.NonEmpty | components/puzzles/WordSearchPuzzle.tsx:33 | `filter(Boolean)` keeps a string exactly when it is in the input and non-empty, keeps every non-empty string as many times as it occurs, and never lengthens the list |
| Text.NonEmptyAppend | components/puzzles/WordSearchPuzzle.tsx:33 | the filter keeps the order: filtering a concatenation is filtering each part, one after the other |
| Text.NonEmptySingle | components/puzzles/WordSearchPuzzle.tsx:33 | a single string is kept exactly when it is non-empty; with the previous row this fixes the filter's result for every list |
| Text.SplitAppend | components/puzzles/WordSearchPuzzle.tsx:33 | splitting text joined at a separator gives the pieces of the left part followed by those of the right part |
| Text.SplitNone | components/puzzles/WordSearchPuzzle.tsx:33 | text without the separator splits into itself alone |
| Chess.Generate | components/puzzles/ChessPuzzle.tsx:24-38 | generation is refused exactly when no secret is set, fails exactly when the provider returns nothing, and otherwise plays the returned puzzle |
| Chess.Normalize | components/puzzles/ChessPuzzle.tsx:43-44 | the normal form has as many characters as the move without decorations, and lower-casing first and stripping second gives the same normal form |
| Chess.StripLower | components/puzzles/ChessPuzzle.tsx:43-44 | the replace and `toLowerCase` commute |
| Chess.IsCorrectMove | components/puzzles/ChessPuzzle.tsx:41-50 | a move equal to the solution up to decorations, or up to case, is accepted; an accepted move has as many characters as the solution once decorations are removed |
| Chess.Strip | components/puzzles/ChessPuzzle.tsx:43-44 | the global replace leaves no `+`, `#` or white space, never lengthens the move, and keeps only characters of the input |
| Chess.NormalizeClean | components/puzzles/ChessPuzzle.tsx:43-44 | a normalised move holds no `+`, `#`, white space or upper-case letter |
| Chess.StripAppend | components/puzzles/ChessPuzzle.tsx:43 | the replace works character by character: stripping a concatenation strips each part |
| Chess.StripClean | components/puzzles/ChessPuzzle.tsx:43 | a move without decorations is left as it is |
| Chess.NormalizeIdempotent | components/puzzles/ChessPuzzle.tsx:43-44 | normalising a normalised move changes nothing |
| Chess.DecorationIgnored | components/puzzles/ChessPuzzle.tsx:43-46 | inserting any run of `+`, `#` and white space anywhere in the move never changes the verdict |
| Chess.MateMarkAccepted | components/puzzles/ChessPuzzle.tsx:43-47 | "Qh7#" is accepted for the solution "qh7+" |
| Chess.CaptureMarkMatters | components/puzzles/ChessPuzzle.tsx:43-50 | "Qh7" is rejected for the solution "Qxh7" |
| Chess.RowWidth | components/puzzles/ChessPuzzle.tsx:60-67 | a placement row is as wide as the sum of its digit values plus its number of other characters |
| Chess.Rows | components/puzzles/ChessPuzzle.tsx:56-57 | the board has one row more than the placement field (the text before the first space) has `/` separators |
| Chess.ExpandBoard | components/puzzles/ChessPuzzle.tsx:53-72 | the nested loops build one row per placement row; each row is the character-by-character expansion (a digit d gives d empty squares, a letter its `pieceMap` glyph), and its width is digit sum plus other characters |
| Chess.ExpandRowAppend | components/puzzles/ChessPuzzle.tsx:58-68 | the squares of a concatenated row are those of the first part followed by those of the second |
| Chess.KingRow | components/puzzles/ChessPuzzle.tsx:60-67 | the row "4k3" is four empty squares, the black king and three empty squares |
| Crossword.WordList | components/puzzles/CrosswordPuzzle.tsx:33 | every listed word is non-empty, and every non-empty trimmed comma piece is listed as many times as it occurs among the trimmed pieces |
| Crossword.WordListMember | components/puzzles/CrosswordPuzzle.tsx:33 | a word is listed exactly when it is non-empty and the trim of some comma piece; a listed word holds no comma |
| Crossword.WordListAppend | components/puzzles/CrosswordPuzzle.tsx:33 | the words of two texts joined by a comma are the words of the first followed by those of the second, so the list keeps the order of the pieces |
| Crossword.WordListPiece | components/puzzles/CrosswordPuzzle.tsx:33 | text without a comma gives its trim as the one word, or no word when it is blank; with the previous row this fixes the list for every text |
| Crossword.Generate | components/puzzles/CrosswordPuzzle.tsx:27-51 | refused exactly without a secret, without a theme in theme mode, or with fewer than two words in word mode; otherwise fails exactly when the provider returns nothing |
| Crossword.CellSets | components/puzzles/CrosswordPuzzle.tsx:72-78 | the letter cells are exactly the in-grid cells holding a non-empty string, and the correct cells are those whose entry equals the upper-cased letter |
| Crossword.Check | components/puzzles/CrosswordPuzzle.tsx:66-83 | the scan gives feedback for exactly the letter cells, true exactly where the entry (or `''`) equals the upper-cased letter; the total is the number of letter cells and the correct count the number of true entries, which is the number of correct cells |
| Crossword.CheckRow | components/puzzles/CrosswordPuzzle.tsx:73-81 | scanning one row extends the feedback and counts from the start of that row to the start of the next |
| Crossword.ScanLetter | components/puzzles/CrosswordPuzzle.tsx:74-80 | visiting a letter cell adds its own feedback entry, counts it in the total, and counts it as correct exactly when its entry is |
| Crossword.ScanBlank | components/puzzles/CrosswordPuzzle.tsx:74 | visiting a null or empty cell changes neither the feedback nor the counts |
| Crossword.CrosswordGame.Start | components/puzzles/CrosswordPuzzle.tsx:45-47 | play starts with the generated grid, no entries, no feedback, not solved |
| Crossword.CrosswordGame.InputChange | components/puzzles/CrosswordPuzzle.tsx:54-56 | the entry at the cell becomes the upper-cased value; every other entry, the feedback and the solved flag stay |
| Crossword.CrosswordGame.CheckSolution | components/puzzles/CrosswordPuzzle.tsx:66-89 | the entries are untouched; the feedback is replaced by the scan's; the puzzle becomes solved exactly when every letter cell is correct |
| Crossword.CorrectAtMostTotal | components/puzzles/CrosswordPuzzle.tsx:76-79 | the correct cells are letter cells, so the correct count never exceeds the total |
| Crossword.SolvedIffAllCorrect | components/puzzles/CrosswordPuzzle.tsx:84-86 | the two counts are equal exactly when every letter cell is correct |
| Crossword.FullFillSolves | components/puzzles/CrosswordPuzzle.tsx:84-86 | entering every authoritative letter makes every letter cell correct |
| Crossword.OneWrongCell | components/puzzles/CrosswordPuzzle.tsx:84-88 | from a correct fill, one wrong letter cell lowers the correct count by exactly one, so the puzzle is not solved |
| WordLadder.Generate | components/puzzles/WordLadderPuzzle.tsx:21-36 | refused exactly unless both words are non-empty, of one length and a secret is set; any non-empty returned ladder is accepted as it is |
| WordLadder.IsCorrect | components/puzzles/WordLadderPuzzle.tsx:44-45 | an accepted set of rows has a row for each ladder word, of that word's length and without lower-case letters; an empty ladder is always accepted (`every` on an empty array) |
| WordLadder.CorrectIffUpperLadder | components/puzzles/WordLadderPuzzle.tsx:45 | for rows of the ladder's length the check holds exactly when the rows are the upper-cased ladder |
| WordLadder.MovesAreEditableRows | components/puzzles/WordLadderPuzzle.tsx:27-30 | for a ladder of two or more words the move count shown at line 76 is the number of rows the solver types; a one-word ladder, which generation accepts, is shown as -1 moves with no row to type |
| WordLadder.LadderGame.Ingest | components/puzzles/WordLadderPuzzle.tsx:28-31 | ingestion keeps the ladder and starts one empty row per step, unsolved |
| WordLadder.LadderGame.InputChange | components/puzzles/WordLadderPuzzle.tsx:38-42 | the row at the index becomes the upper-cased value and no other row changes |
| WordLadder.LadderGame.Type | components/puzzles/WordLadderPuzzle.tsx:96-98 | typing changes an interior row only; the read-only first and last rows stay empty |
| WordLadder.LadderGame.CheckSolution | components/puzzles/WordLadderPuzzle.tsx:44-51 | the rows are untouched and the puzzle becomes solved exactly when every row, ends included, equals the upper-cased ladder word |
| WordLadder.EndsBlockSuccess | components/puzzles/WordLadderPuzzle.tsx:45 | with the end rows empty, the check fails whenever the start or end word is non-empty |
| WordLadder.ExactLadderRejected | components/puzzles/WordLadderPuzzle.tsx:45 | COLD-CORD-CARD-WARD with its interior typed exactly is rejected |
| WordLadder.InteriorMismatchFails | components/puzzles/WordLadderPuzzle.tsx:45 | COLD-CORE-CARD-WARD is rejected for the ladder COLD-CORD-CARD-WARD |
| WordGuess.Feedback | components/puzzles/WordGuessPuzzle.tsx:43-65 | one status per position: green where guess and solution agree; otherwise yellow exactly when fewer earlier non-green guess copies of that letter exist than non-green solution copies |
| WordGuess.MaskedCount | components/puzzles/WordGuessPuzzle.tsx:46-54 | after the first pass, the working copy holds each letter as often as the solution holds it off the green positions |
| WordGuess.WorkCount | components/puzzles/WordGuessPuzzle.tsx:56-65 | after the second pass has handled i positions, each letter remains in the working copy as often as its unmatched solution copies less those already claimed |
| WordGuess.PresentIffInWork | components/puzzles/WordGuessPuzzle.tsx:58-62 | a non-green position is yellow exactly when its letter is still in the working copy when the pass reaches it |
| WordGuess.IndexOf | components/puzzles/WordGuessPuzzle.tsx:59 | `indexOf` returns -1 exactly when the letter is absent, and otherwise its first occurrence |
| WordGuess.MarkGreens | components/puzzles/WordGuessPuzzle.tsx:43-54 | the first pass marks exactly the agreeing positions green, the rest absent, and blanks the green letters out of the working copy |
| WordGuess.MarkPresents | components/puzzles/WordGuessPuzzle.tsx:56-65 | the second pass, where each yellow consumes the leftmost unconsumed copy, produces exactly the reference statuses |
| WordGuess.Score | components/puzzles/WordGuessPuzzle.tsx:43-65 | the two passes together produce exactly the reference statuses |
| WordGuess.MarkedIsMinCount | components/puzzles/WordGuessPuzzle.tsx:56-65 | for every letter, the green and yellow tiles on it number the smaller of its counts in the guess and in the solution |
| WordGuess.AllCorrectIffSolution | components/puzzles/WordGuessPuzzle.tsx:49-54 | every tile is green exactly when the guess equals the solution |
| WordGuess.SpeedAgainstErase | components/puzzles/WordGuessPuzzle.tsx:56-65 | SPEED against ERASE scores yellow, absent, yellow, yellow, absent |
| WordGuess.GreenBeatsEarlierDuplicate | components/puzzles/WordGuessPuzzle.tsx:48-65 | LLAMA against PLANT: the green L takes the only L, so the earlier L is absent |
| WordGuess.LettersIff | components/puzzles/WordGuessPuzzle.tsx:30 | the test `/^[a-zA-Z]+$/` holds exactly for a non-empty string of ASCII letters |
| WordGuess.CanStart | components/puzzles/WordGuessPuzzle.tsx:29-35 | play is started exactly for a five-letter word of ASCII letters with a secret; those are the words `WordGuessGame.Start` accepts |
| WordGuess.WordGuessGame.Start | components/puzzles/WordGuessPuzzle.tsx:29-35 | play starts with the five-letter solution, no guesses, an empty buffer and message, neither won nor lost |
| WordGuess.WordGuessGame.SubmitGuess | components/puzzles/WordGuessPuzzle.tsx:37-78 | a short guess only sets the message; a full one is appended with its scoring and the buffer is cleared; solved exactly on a match, else lost once six guesses are made |
| WordGuess.WordGuessGame.KeyDown | components/puzzles/WordGuessPuzzle.tsx:80-94 | keys change nothing once won or lost; Enter submits: a short buffer only sets the message, a full one is scored and appended, the buffer and message cleared, the game won on a match or lost on the sixth miss; Backspace drops the last letter; a letter is appended upper-cased only while the buffer is shorter than five; no key but Enter touches the message or the guesses |
| WordGuess.WonRowAllGreen | components/puzzles/WordGuessPuzzle.tsx:73-74 | in a won game the last row is all green |
| WordGuess.LostAfterSixMisses | components/puzzles/WordGuessPuzzle.tsx:73-77 | a lost game has exactly six guesses and none of them is the solution |
| SlidingTile.CreateTiles | components/puzzles/SlidingTilePuzzle.tsx:55-58 | n² tiles, the i-th with id and home position i |
| SlidingTile.SwapKeepsMultisets | components/puzzles/SlidingTilePuzzle.tsx:30 | a swap changes neither the multiset of ids nor that of home positions |
| SlidingTile.Shuffle | components/puzzles/SlidingTilePuzzle.tsx:26-33 | the shuffle keeps the multisets of ids and home positions, and every tile's position becomes its index |
| SlidingTile.ShuffledIsWellFormed | components/puzzles/SlidingTilePuzzle.tsx:55-62 | shuffled fresh tiles hold ids 0..n²-1 and positions 0..n²-1, each once, with home position equal to id |
| SlidingTile.AdjacentIffNeighbours | components/puzzles/SlidingTilePuzzle.tsx:104-106 | on the board the click rule holds exactly for orthogonal neighbours: same row and columns one apart, or same column and rows one apart |
| SlidingTile.NotAdjacentToSelf | components/puzzles/SlidingTilePuzzle.tsx:104-106 | clicking the blank itself is never a move |
| SlidingTile.FirstWithId | components/puzzles/SlidingTilePuzzle.tsx:100 | `find` by id returns a tile with that id, before which none has it |
| SlidingTile.FindById | components/puzzles/SlidingTilePuzzle.tsx:111-112 | the `find` loop returns the first tile with the id |
| SlidingTile.UniqueId | components/puzzles/SlidingTilePuzzle.tsx:111-114 | on a well-formed board no two tiles share an id, so `find` by the clicked tile's id returns the clicked tile |
| SlidingTile.BlankPresent | components/puzzles/SlidingTilePuzzle.tsx:99-100 | a well-formed board always holds the blank (id n²-1), so the `find` for it cannot miss |
| SlidingTile.MoveSwapsTwo | components/puzzles/SlidingTilePuzzle.tsx:108-118 | a move exchanges the positions of the blank and the clicked tile, which differ; every other tile, every id and every home position stays; the board stays well-formed |
| SlidingTile.SolvedBlankInCorner | components/puzzles/SlidingTilePuzzle.tsx:86-89 | on a solved board the blank is in the last position |
| SlidingTile.Board.Start | components/puzzles/SlidingTilePuzzle.tsx:76-95 | starting creates and shuffles the tiles, keeps the deal as the export snapshot, counts no move, and is solved only if the deal is already solved |
| SlidingTile.Board.FromSnapshot | services/exportService.ts:92-107 | the exported player starts from the saved deal without a new shuffle |
| SlidingTile.Board.Click | components/puzzles/SlidingTilePuzzle.tsx:97-119 | once solved, or for a tile not next to the blank, nothing changes; otherwise the two positions swap and one move is counted; solved becomes true exactly when the tiles are all home |
| WordSearch.WordList | components/puzzles/WordSearchPuzzle.tsx:33 | every listed word is non-empty, and every non-empty trimmed, upper-cased comma piece is listed as many times as it occurs among those pieces |
| WordSearch.ListedWord | components/puzzles/WordSearchPuzzle.tsx:33 | a word is listed exactly when it is non-empty and the upper-cased trim of some comma piece; a listed word holds no comma |
| WordSearch.WordListAppend | components/puzzles/WordSearchPuzzle.tsx:33 | the words of two texts joined by a comma are the words of the first followed by those of the second, so the list keeps the order of the pieces |
| WordSearch.WordListPiece | components/puzzles/WordSearchPuzzle.tsx:33 | text without a comma gives its trimmed, upper-cased form as the one word, or no word when it is blank; with the previous row this fixes the list for every text |
| WordSearch.Generate | components/puzzles/WordSearchPuzzle.tsx:32-47 | refused exactly with fewer than two words, no secret message or no secret; otherwise generated exactly when the provider answers |
| WordSearch.LineReachesEnd | components/puzzles/WordSearchPuzzle.tsx:143-151 | on a line, `steps` steps of (sign dRow, sign dCol) lead exactly to the end |
| WordSearch.SegmentShape | components/puzzles/WordSearchPuzzle.tsx:143-151 | a line's cells include both endpoints and number max(abs dRow, abs dCol) + 1 |
| WordSearch.SegmentIffOnLine | components/puzzles/WordSearchPuzzle.tsx:143-151 | a cell is on the walked line exactly when it lies in the endpoints' bounding box on the straight line through them |
| WordSearch.CellsInSelection | components/puzzles/WordSearchPuzzle.tsx:115-154 | no cell for no point, the point itself for one, just the two endpoints for a pair that is not a line, and otherwise exactly the line's cells |
| WordSearch.WalkSolution | components/puzzles/WordSearchPuzzle.tsx:160-172 | from line-shaped endpoints the unbounded walk ends, having visited exactly the line's cells |
| WordSearch.OffLineNeverArrives | components/puzzles/WordSearchPuzzle.tsx:165-171 | from endpoints that are not line-shaped the walk never reaches the end |
| WordSearch.NewMatch | components/puzzles/WordSearchPuzzle.tsx:95-103 | the chosen solution is matched forwards or backwards and its word is not yet found, and no earlier solution is such; none is chosen exactly when no solution is such |
| WordSearch.FindNewMatch | components/puzzles/WordSearchPuzzle.tsx:95-104 | the scan with early exit picks exactly that solution |
| WordSearch.DragAddsAtMostOne | components/puzzles/WordSearchPuzzle.tsx:100-102 | a drag never removes a word, adds at most one, and only adds the word of a solution it hits |
| WordSearch.DragEitherWay | components/puzzles/WordSearchPuzzle.tsx:97-98 | dragging from b to a finds the same as dragging from a to b |
| WordSearch.RepeatDragNoChange | components/puzzles/WordSearchPuzzle.tsx:100 | once every solution a drag hits is found, repeating it changes nothing |
| WordSearch.WordSearchGame.Start | components/puzzles/WordSearchPuzzle.tsx:107-111 | play starts with nothing found or selected; the win effect then holds only for an empty word list |
| WordSearch.WordSearchGame.MouseDown | components/puzzles/WordSearchPuzzle.tsx:60-66 | a press on a cell starts a selection of just that cell; elsewhere nothing changes |
| WordSearch.WordSearchGame.MouseMove | components/puzzles/WordSearchPuzzle.tsx:68-80 | while selecting, a cell other than the current end replaces the end and keeps the start; otherwise the selection stays |
| WordSearch.WordSearchGame.MouseUp | components/puzzles/WordSearchPuzzle.tsx:82-111 | a two-point selection finds the next unfound solution it hits; the selection is always cleared; solved exactly when as many words are found as listed |
| WordSearch.FewerSolutionWordsNeverWon | components/puzzles/WordSearchPuzzle.tsx:107-111 | with fewer distinct solution words than listed words the puzzle is never won |
| WordSearch.WonMeansAllFound | components/puzzles/WordSearchPuzzle.tsx:107-111 | when the listed words are distinct and are the solutions' words, a won puzzle has found every one of them |
| WordSearch.FoundCells | components/puzzles/WordSearchPuzzle.tsx:156-175 | the highlighted cells are exactly the cells of the lines of the solutions whose word is found; only the found solutions need line-shaped endpoints |
| Export.MapsConsistent | services/exportService.ts:697-713 | both tables cover all six puzzle types; for every type the rendered name is the component the embedded code declares; no two types share a player |
| Export.Player | services/exportService.ts:717-719 | the code embedded and the component rendered for a type always agree |
| Export.Dashes | services/exportService.ts:796 | replacing `_` by `-` keeps the length, leaves no `_`, and changes nothing else |
| Export.SlugInjective | services/exportService.ts:796 | lower-casing and dashing loses nothing on tags of capitals and underscores |
| Export.TagInjective | types.ts:1-8 | distinct puzzle types have distinct tags |
| Export.DownloadNamesDistinct | services/exportService.ts:796 | no two puzzle types share a download name |
| Export.DownloadNameShape | services/exportService.ts:796 | a download name holds no `_` and no capital letter |
| Export.WordSearchDownloadName | services/exportService.ts:796 | the word search downloads as `word-search-puzzle.html` |

## Left out

- The content provider (services/geminiService.ts) is not part of this model. Its
  answer is a parameter of each `Generate` function: `None` for a failed request,
  `Some` for the returned content. The content is taken as authoritative, as the code
  does.
- Upper and lower case are modelled on the ASCII letters only. JavaScript also maps
  other scripts and can change a string's length (`ß` to `SS`).
- React scheduling is not modelled: effects, stale closures between mouse events, and
  `useCallback`/`useMemo` caching. A win effect is modelled as running right after the
  change that triggers it.
- Not modelled because they are I/O or display:
  - alerts, focus moves after a crossword entry, and the `maxLength` limit of a ladder
    row's input;
  - image upload, canvas cropping, `toDataURL`, and the floating-point
    background-position percentages of the sliding tiles;
  - the HTML page assembly, `JSON.stringify` of the state, and the Blob download. An
    embedded player is represented by the name of the component it declares.
- The configuration phase of each component is modelled by its `Generate` (or start)
  step. The play classes start from the generated content, so the code's guards for a
  missing `puzzleData` are not modelled. One of these guards is the exported
  word-search mouse-up's early `return` when the data is null.
- Cells are modelled as `(row, col)` pairs rather than the `"row-col"` string keys.
  The two agree for the non-negative coordinates a grid has.
- `Math.random` in the shuffle is a nondeterministic choice of `j` in `0..i`. The
  probability distribution is not modelled.
- The tile objects are modelled as values, so the aliasing of tile objects shared
  between the old and new arrays of a click is not modelled. Fresh tiles get
  `currentIndex` 0 before the shuffle sets it; the code leaves it unset. The sorted
  display order (`sortedTiles`) is not modelled, and neither is the image guard in
  `generateTiles`.
- SlidingTile.Board.Start: the shuffle is not constrained to solvable deals, as in the
  code. Reachability of the solved board is therefore not stated.
- WordSearch.WalkSolution requires line-shaped endpoints, and WordSearch.FoundCells
  requires them of the solutions whose word is found, the only ones it walks. For a
  found solution with other endpoints the loop of the code never ends, which
  WordSearch.OffLineNeverArrives proves.
- WordGuess.Score requires a guess without the `_` marker. Guesses are built from
  letter keys only (see `WordGuessGame.KeyDown`), so every submitted guess meets this.
- WordGuess.WordGuessGame.KeyDown: the in-app handler's guard for an unconfigured
  puzzle is not modelled. The class models the play phase only, which starts
  configured.
