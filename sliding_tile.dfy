/**
 * The sliding-tile variant (components/puzzles/SlidingTilePuzzle.tsx): tiles numbered
 * 0 .. n*n-1 are dealt by a Fisher-Yates shuffle, the last tile is the blank, a click
 * on a tile next to the blank swaps their positions, and the puzzle is solved when
 * every tile is back at its original position.
 */
module SlidingTile {

  /** A tile: its identity, its home position and the position it now occupies. */
  datatype Tile = Tile(id: int, originalIndex: int, currentIndex: int)

  /** The identity part of a tile, which no move changes. */
  function Home(t: Tile): (int, int) {
    (t.id, t.originalIndex)
  }

  function Homes(tiles: seq<Tile>): (r: seq<(int, int)>)
    ensures |r| == |tiles| && forall k :: 0 <= k < |tiles| ==> r[k] == Home(tiles[k])
  {
    seq(|tiles|, k requires 0 <= k < |tiles| => Home(tiles[k]))
  }

  function Ids(tiles: seq<Tile>): (r: seq<int>)
    ensures |r| == |tiles| && forall k :: 0 <= k < |tiles| ==> r[k] == tiles[k].id
  {
    seq(|tiles|, k requires 0 <= k < |tiles| => tiles[k].id)
  }

  function Positions(tiles: seq<Tile>): (r: seq<int>)
    ensures |r| == |tiles| && forall k :: 0 <= k < |tiles| ==> r[k] == tiles[k].currentIndex
  {
    seq(|tiles|, k requires 0 <= k < |tiles| => tiles[k].currentIndex)
  }

  /** The numbers 0 .. n-1 in order. */
  function Range(n: nat): (r: seq<int>)
    ensures |r| == n && forall k :: 0 <= k < n ==> r[k] == k
  {
    seq(n, k => k)
  }

  /**
   * The tile creation loop: n*n tiles, the i-th with id and original index i. The
   * position is assigned by the shuffle; until then the model holds 0 there.
   */
  method CreateTiles(gridSize: nat) returns (tiles: seq<Tile>)
    ensures |tiles| == gridSize * gridSize
    ensures forall i :: 0 <= i < |tiles| ==> tiles[i].id == i && tiles[i].originalIndex == i
    ensures Ids(tiles) == Range(gridSize * gridSize)
  {
    tiles := [];
    var i := 0;
    while i < gridSize * gridSize
      invariant 0 <= i <= gridSize * gridSize
      invariant |tiles| == i
      invariant forall k :: 0 <= k < i ==> tiles[k].id == k && tiles[k].originalIndex == k
    {
      tiles := tiles + [Tile(i, i, 0)];
      i := i + 1;
    }
  }

  /** Swapping two entries changes neither the multiset of homes nor that of ids. */
  lemma SwapKeepsMultisets(s: seq<Tile>, i: nat, j: nat)
    requires i < |s| && j < |s|
    ensures multiset(Homes(s[i := s[j]][j := s[i]])) == multiset(Homes(s))
    ensures multiset(Ids(s[i := s[j]][j := s[i]])) == multiset(Ids(s))
  {
    assert Homes(s[i := s[j]][j := s[i]]) == Homes(s)[i := Home(s[j])][j := Home(s[i])];
    assert Ids(s[i := s[j]][j := s[i]]) == Ids(s)[i := s[j].id][j := s[i].id];
  }

  /**
   * `shuffleTiles`: Fisher-Yates over a copy, from the last slot down to slot 1, each
   * slot swapped with a slot `j` chosen in [0, i]; then every tile's position is its
   * slot. The tiles themselves are only permuted.
   */
  method Shuffle(tiles: seq<Tile>) returns (shuffled: seq<Tile>)
    ensures |shuffled| == |tiles|
    ensures forall k :: 0 <= k < |shuffled| ==> shuffled[k].currentIndex == k
    ensures multiset(Homes(shuffled)) == multiset(Homes(tiles))
    ensures multiset(Ids(shuffled)) == multiset(Ids(tiles))
  {
    var a := new Tile[|tiles|](k requires 0 <= k < |tiles| => tiles[k]);
    assert a[..] == tiles;
    var i := a.Length - 1;
    while i > 0
      invariant -1 <= i < a.Length || a.Length == 0
      invariant multiset(Homes(a[..])) == multiset(Homes(tiles))
      invariant multiset(Ids(a[..])) == multiset(Ids(tiles))
    {
      var j :| 0 <= j <= i;
      SwapKeepsMultisets(a[..], i, j);
      assert a[..][i := a[j]][j := a[i]] == a[..][i := a[..][j]][j := a[..][i]];
      a[i], a[j] := a[j], a[i];
      i := i - 1;
    }
    shuffled := seq(a.Length, k requires 0 <= k < a.Length reads a => a[k].(currentIndex := k));
    assert Homes(shuffled) == Homes(a[..]);
    assert Ids(shuffled) == Ids(a[..]);
  }

  /**
   * A well-formed board for a grid of side `gridSize`: n*n tiles whose ids and whose
   * positions are each a permutation of 0 .. n*n-1, every tile's home being its id.
   */
  ghost predicate WellFormed(tiles: seq<Tile>, gridSize: nat) {
    && gridSize > 0
    && |tiles| == gridSize * gridSize
    && multiset(Ids(tiles)) == multiset(Range(|tiles|))
    && multiset(Positions(tiles)) == multiset(Range(|tiles|))
    && forall k :: 0 <= k < |tiles| ==> tiles[k].originalIndex == tiles[k].id
  }

  /** Shuffling freshly created tiles yields a well-formed board. */
  lemma {:induction false} ShuffledIsWellFormed(gridSize: nat, created: seq<Tile>, shuffled: seq<Tile>)
    requires gridSize > 0
    requires |created| == gridSize * gridSize
    requires forall i :: 0 <= i < |created| ==> created[i].id == i && created[i].originalIndex == i
    requires |shuffled| == |created|
    requires forall k :: 0 <= k < |shuffled| ==> shuffled[k].currentIndex == k
    requires multiset(Homes(shuffled)) == multiset(Homes(created))
    requires multiset(Ids(shuffled)) == multiset(Ids(created))
    ensures WellFormed(shuffled, gridSize)
  {
    var n := |created|;
    assert Ids(created) == Range(n);
    assert Positions(shuffled) == Range(n);
    forall k | 0 <= k < n ensures shuffled[k].originalIndex == shuffled[k].id {
      assert Homes(shuffled)[k] in multiset(Homes(created));
      var i :| 0 <= i < n && Homes(created)[i] == Home(shuffled[k]);
    }
  }

  /** `Math.abs`. */
  function Abs(x: int): nat {
    if x < 0 then -x else x
  }

  /**
   * The adjacency rule of a click: positions one apart in the same row
   * (`Math.floor(i / gridSize)`), or exactly `gridSize` apart.
   */
  predicate IsAdjacent(blankIndex: int, clickedIndex: int, gridSize: nat)
    requires gridSize > 0
  {
    (Abs(blankIndex - clickedIndex) == 1 && blankIndex / gridSize == clickedIndex / gridSize)
    || Abs(blankIndex - clickedIndex) == gridSize
  }

  /** Splitting a difference of positions into rows and columns, with `dist == g * d + e`. */
  lemma SideStep(dist: int, g: int, d: int, e: int)
    requires g > 0 && -g < e < g && dist == g * d + e
    ensures dist == g || dist == -g ==> e == 0 && (d == 1 || d == -1)
    ensures d == 0 ==> dist == e
    ensures e == 0 && (d == 1 || d == -1) ==> dist == g || dist == -g
  {
    if d >= 2 {
      assert g * d >= 2 * g by { assert g * d == g * (d - 2) + 2 * g; }
    } else if d <= -2 {
      assert g * d <= -2 * g by { assert g * d == g * (d + 2) - 2 * g; }
    } else if d == 1 {
      assert g * d == g;
    } else if d == -1 {
      assert g * d == -g;
    } else {
      assert g * d == 0;
    }
  }

  /**
   * On an n-by-n grid the rule means orthogonal neighbours: same row and neighbouring
   * columns, or same column and neighbouring rows.
   */
  lemma AdjacentIffNeighbours(b: int, c: int, g: nat)
    requires g > 0 && 0 <= b < g * g && 0 <= c < g * g
    ensures IsAdjacent(b, c, g) <==>
      (b / g == c / g && Abs(b % g - c % g) == 1) || (b % g == c % g && Abs(b / g - c / g) == 1)
  {
    var rb, cb, rc, cc := b / g, b % g, c / g, c % g;
    var d, e := rb - rc, cb - cc;
    assert b - c == g * d + e by {
      assert b == g * rb + cb && c == g * rc + cc;
      assert g * rb - g * rc == g * (rb - rc);
    }
    SideStep(b - c, g, d, e);
  }

  /** A tile is never adjacent to itself: clicking the blank is never a move. */
  lemma NotAdjacentToSelf(i: int, g: nat)
    requires g > 0
    ensures !IsAdjacent(i, i, g)
  {
  }

  /** Index of the first tile with the given id (`tiles.find(t => t.id === id)`). */
  function FirstWithId(tiles: seq<Tile>, id: int): (k: nat)
    requires id in Ids(tiles)
    ensures k < |tiles| && tiles[k].id == id
    ensures forall j :: 0 <= j < k ==> tiles[j].id != id
  {
    if tiles[0].id == id then 0
    else
      assert Ids(tiles) == [tiles[0].id] + Ids(tiles[1..]);
      1 + FirstWithId(tiles[1..], id)
  }

  /** The `find` loop: the first tile with that id. */
  method FindById(tiles: seq<Tile>, id: int) returns (k: nat)
    requires id in Ids(tiles)
    ensures k < |tiles| && tiles[k].id == id
    ensures forall j :: 0 <= j < k ==> tiles[j].id != id
  {
    k := 0;
    while tiles[k].id != id
      invariant k < |tiles|
      invariant forall j :: 0 <= j < k ==> tiles[j].id != id
      invariant id in Ids(tiles[k..])
      decreases |tiles| - k
    {
      assert Ids(tiles[k..]) == [tiles[k].id] + Ids(tiles[k + 1..]);
      k := k + 1;
    }
  }

  /** In a well-formed board every id 0 .. n*n-1 belongs to exactly one tile. */
  lemma UniqueId(tiles: seq<Tile>, gridSize: nat, i: int, j: int)
    requires WellFormed(tiles, gridSize)
    requires 0 <= i < |tiles| && 0 <= j < |tiles| && tiles[i].id == tiles[j].id
    ensures i == j
  {
    if i != j {
      var lo, hi := if i < j then i else j, if i < j then j else i;
      RangeCountOne(|tiles|, tiles[hi].id);
      TwoOccurrences(Ids(tiles), lo, hi);
    }
  }

  lemma TwoOccurrences(s: seq<int>, lo: nat, hi: nat)
    requires lo < hi < |s| && s[lo] == s[hi]
    ensures multiset(s)[s[hi]] >= 2
  {
    assert s == s[..hi] + s[hi..];
    assert s[lo] in multiset(s[..hi]);
    assert s[hi] in multiset(s[hi..]);
  }

  lemma {:induction false} RangeCountOne(n: nat, v: int)
    requires v in multiset(Range(n))
    ensures multiset(Range(n))[v] == 1
  {
    if n > 0 {
      assert Range(n) == Range(n - 1) + [n - 1];
      if v != n - 1 {
        RangeCountOne(n - 1, v);
      } else {
        assert v !in Range(n - 1);
      }
    }
  }

  /** The blank is the tile with the highest id. */
  function BlankId(gridSize: nat): int {
    gridSize * gridSize - 1
  }

  lemma BlankPresent(tiles: seq<Tile>, gridSize: nat)
    requires WellFormed(tiles, gridSize)
    ensures BlankId(gridSize) in Ids(tiles)
  {
    var n := |tiles|;
    assert Range(n)[n - 1] == n - 1;
    assert n - 1 in multiset(Range(n));
  }

  /** Slot of the blank tile. */
  function BlankSlot(tiles: seq<Tile>, gridSize: nat): (k: nat)
    requires WellFormed(tiles, gridSize)
    ensures k < |tiles| && tiles[k].id == BlankId(gridSize)
  {
    BlankPresent(tiles, gridSize);
    FirstWithId(tiles, BlankId(gridSize))
  }

  /** A click on the tile in slot k is a move: its position is adjacent to the blank's. */
  ghost predicate IsMove(tiles: seq<Tile>, gridSize: nat, k: nat)
    requires WellFormed(tiles, gridSize) && k < |tiles|
  {
    IsAdjacent(tiles[BlankSlot(tiles, gridSize)].currentIndex, tiles[k].currentIndex, gridSize)
  }

  /** The board after a move: the blank and the clicked tile trade positions. */
  ghost function AfterMove(tiles: seq<Tile>, gridSize: nat, k: nat): seq<Tile>
    requires WellFormed(tiles, gridSize) && k < |tiles|
  {
    var b := BlankSlot(tiles, gridSize);
    tiles[b := tiles[b].(currentIndex := tiles[k].currentIndex)][k := tiles[k].(currentIndex := tiles[b].currentIndex)]
  }

  /**
   * A move swaps only the two positions: the clicked tile takes the blank's position,
   * the blank takes the clicked tile's, every other tile and every id and home stay,
   * and the board stays well-formed.
   */
  lemma {:induction false} MoveSwapsTwo(tiles: seq<Tile>, gridSize: nat, k: nat)
    requires WellFormed(tiles, gridSize) && k < |tiles| && IsMove(tiles, gridSize, k)
    ensures var after, b := AfterMove(tiles, gridSize, k), BlankSlot(tiles, gridSize);
      && b != k
      && |after| == |tiles|
      && after[b].currentIndex == tiles[k].currentIndex
      && after[k].currentIndex == tiles[b].currentIndex
      && (forall j :: 0 <= j < |tiles| && j != b && j != k ==> after[j] == tiles[j])
      && Homes(after) == Homes(tiles)
      && WellFormed(after, gridSize)
  {
    var b := BlankSlot(tiles, gridSize);
    var after := AfterMove(tiles, gridSize, k);
    if b == k {
      NotAdjacentToSelf(tiles[k].currentIndex, gridSize);
    }
    assert Ids(after) == Ids(tiles);
    assert Homes(after) == Homes(tiles);
    assert Positions(after) == Positions(tiles)[b := tiles[k].currentIndex][k := tiles[b].currentIndex];
  }

  /** The win test: a non-empty board whose every tile sits at its original position. */
  predicate IsSolved(tiles: seq<Tile>) {
    |tiles| > 0 && forall k :: 0 <= k < |tiles| ==> tiles[k].currentIndex == tiles[k].originalIndex
  }

  /** On a solved board the blank sits in the last position, the bottom-right corner. */
  lemma SolvedBlankInCorner(tiles: seq<Tile>, gridSize: nat)
    requires WellFormed(tiles, gridSize) && IsSolved(tiles)
    ensures tiles[BlankSlot(tiles, gridSize)].currentIndex == gridSize * gridSize - 1
  {
  }

  /** The play phase of a sliding-tile puzzle. */
  class Board {
    const gridSize: nat
    const initialTiles: seq<Tile>
    var tiles: seq<Tile>
    var moves: nat
    var solved: bool

    ghost predicate Valid()
      reads this
    {
      WellFormed(tiles, gridSize) && (IsSolved(tiles) ==> solved)
    }

    /**
     * `handleStart`/`generateTiles`: create the tiles, shuffle them, keep a copy of the
     * deal as the export snapshot; the win effect runs on the dealt board.
     */
    constructor Start(size: nat)
      requires size > 0
      ensures Valid()
      ensures gridSize == size && tiles == initialTiles && moves == 0
      ensures solved == IsSolved(tiles)
    {
      var created := CreateTiles(size);
      var shuffled := Shuffle(created);
      ShuffledIsWellFormed(size, created, shuffled);
      gridSize := size;
      initialTiles := shuffled;
      tiles := shuffled;
      moves := 0;
      solved := IsSolved(shuffled);
    }

    /** The exported player: starts from the snapshot's deal, with no new shuffle. */
    constructor FromSnapshot(size: nat, snapshot: seq<Tile>)
      requires WellFormed(snapshot, size)
      ensures Valid()
      ensures gridSize == size && tiles == snapshot && initialTiles == snapshot && moves == 0
      ensures solved == IsSolved(snapshot)
    {
      gridSize := size;
      initialTiles := snapshot;
      tiles := snapshot;
      moves := 0;
      solved := IsSolved(snapshot);
    }

    /**
     * `handleTileClick` on the tile in slot k: ignored once solved or when the tile is
     * not next to the blank; otherwise the two trade positions and one move is counted.
     * The win effect follows.
     */
    method Click(k: nat)
      requires Valid() && k < |tiles|
      modifies this
      ensures Valid()
      ensures !old(solved) && IsMove(old(tiles), gridSize, k) ==>
        tiles == AfterMove(old(tiles), gridSize, k) && moves == old(moves) + 1
      ensures old(solved) || !IsMove(old(tiles), gridSize, k) ==>
        tiles == old(tiles) && moves == old(moves)
      ensures solved == (old(solved) || IsSolved(tiles))
    {
      if solved {
        return;
      }
      BlankPresent(tiles, gridSize);
      var b := FindById(tiles, BlankId(gridSize));
      var blankIndex := tiles[b].currentIndex;
      var clickedIndex := tiles[k].currentIndex;
      if IsAdjacent(blankIndex, clickedIndex, gridSize) {
        assert Ids(tiles)[k] == tiles[k].id;
        var c := FindById(tiles, tiles[k].id);
        UniqueId(tiles, gridSize, c, k);
        MoveSwapsTwo(tiles, gridSize, k);
        tiles := tiles[b := tiles[b].(currentIndex := clickedIndex)][c := tiles[c].(currentIndex := blankIndex)];
        moves := moves + 1;
      }
      if IsSolved(tiles) {
        solved := true;
      }
    }
  }
}
