/** The game engine: a board of 9 tiles updated in place, the line test, the
    end-of-game test, moves and the automatic reply. The random tile choice of
    the reply is a caller-supplied sequence of draws. */
module Engine {
  import opened Rules

  class Game {
    var tiles: array<TileStatus>

    ghost predicate Valid()
      reads this
    {
      tiles.Length == Size
    }

    /** Builds the layout: 9 tiles, all empty. */
    constructor ()
      ensures Valid() && fresh(tiles)
      ensures tiles[..] == EmptyBoard()
    {
      var t := new TileStatus[Size];
      for i := 0 to Size
        invariant forall j :: 0 <= j < i ==> t[j] == Empty
      {
        t[i] := Empty;
      }
      tiles := t;
    }

    /** Clears every tile in place; the array itself is kept. */
    method Restart()
      requires Valid()
      modifies tiles
      ensures Valid()
      ensures tiles[..] == EmptyBoard()
    {
      for i := 0 to Size
        invariant forall j :: 0 <= j < i ==> tiles[j] == Empty
      {
        tiles[i] := Empty;
      }
    }

    /** The line test: counts the `Ai` and `Player` marks on the listed
        positions and answers `Ai` on three `Ai`, else `Player` on three
        `Player`, else nothing. On a line of three positions that is the mark
        filling the line. */
    method CheckIndexes(indexes: seq<int>) returns (r: Option<TileStatus>)
      requires Valid() && InRange(indexes)
      ensures r == LineResult(tiles[..], indexes)
      ensures |indexes| == 3 ==> (r.None? <==> !Complete(tiles[..], indexes))
      ensures |indexes| == 3 && r.Some? ==> Completes(tiles[..], indexes, r.value)
    {
      var aiCount, playerCount := 0, 0;
      for k := 0 to |indexes|
        invariant aiCount == CountOf(tiles[..], indexes[..k], Ai)
        invariant playerCount == CountOf(tiles[..], indexes[..k], Player)
      {
        assert indexes[..k + 1][..k] == indexes[..k];
        var square := tiles[indexes[k]];
        if square == Ai {
          aiCount := aiCount + 1;
        } else if square == Player {
          playerCount := playerCount + 1;
        }
      }
      assert indexes[..|indexes|] == indexes;
      if aiCount == 3 {
        r := Some(Ai);
      } else if playerCount == 3 {
        r := Some(Player);
      } else {
        r := None;
      }
      if |indexes| == 3 {
        LineResultOfTriple(tiles[..], indexes);
      }
    }

    /** The winner test: tries the line test on the 8 winning lines in order
        (rows, then columns, then diagonals) and answers the mark of the first
        line it reports, or `Empty` when it reports none. */
    method CheckWin() returns (w: TileStatus)
      requires Valid()
      ensures w == Rules.CheckWin(tiles[..])
      ensures w == Empty <==> !Wins(tiles[..], Ai) && !Wins(tiles[..], Player)
    {
      LinesWellFormed();
      for k := 0 to |Lines|
        invariant Rules.CheckWin(tiles[..]) == FirstWin(tiles[..], k)
      {
        var check := CheckIndexes(Lines[k]);
        if check.Some? {
          return check.value;
        }
      }
      return Empty;
    }

    /** The end-of-game test: the winner, and whether the game is over (a
        winner, or no empty tile left). */
    method EndOfGame() returns (winner: TileStatus, finished: bool)
      requires Valid()
      ensures winner == Rules.CheckWin(tiles[..])
      ensures finished <==> winner != Empty || Full(tiles[..])
      ensures finished == Finished(tiles[..])
    {
      winner := CheckWin();
      if winner != Empty {
        return winner, true;
      }
      for i := 0 to Size
        invariant forall j :: 0 <= j < i ==> tiles[j] != Empty
      {
        if tiles[i] == Empty {
          return Empty, false;
        }
      }
      return Empty, true;
    }

    /** The automatic reply: places a `Player` mark at the first drawn tile
        that is empty, except that once a draw hits an occupied tile on a
        finished board it gives up. The first draw is tried before finishing
        is looked at, so it lands even after a win. */
    method AiTurn(picks: seq<int>)
      requires Valid() && InRange(picks) && OracleSuffices(tiles[..], picks)
      modifies tiles
      ensures Valid()
      ensures tiles[..] == Reply(old(tiles[..]), picks)
      decreases 1
    {
      ghost var b0 := tiles[..];
      var k := 0;
      var index := picks[k];
      var placed := NextMove(index, Player, []);
      var finished := false;
      if !placed {
        var winner;
        winner, finished := EndOfGame();
      }
      while !placed && !finished
        invariant Valid() && 0 <= k < |picks|
        invariant index == picks[k]
        invariant placed ==> b0[index] == Empty && tiles[..] == b0[index := Player]
        invariant !placed ==> tiles[..] == b0 && b0[index] != Empty && finished == Finished(b0)
        invariant ReplyIndex(b0, picks, 0) == ReplyIndex(b0, picks, k)
        invariant !placed && !finished ==> exists j :: k < j < |picks| && b0[picks[j]] == Empty
        decreases |picks| - k
      {
        k := k + 1;
        index := picks[k];
        placed := NextMove(index, Player, []);
        if !placed {
          var winner;
          winner, finished := EndOfGame();
        }
      }
    }

    /** A move: only an empty tile takes the mark; after an `Ai` mark the
        automatic reply follows. Answers whether the tile was empty. */
    method NextMove(index: int, player: TileStatus, picks: seq<int>) returns (ok: bool)
      requires Valid() && 0 <= index < Size && InRange(picks)
      requires player == Ai && tiles[index] == Empty ==> OracleSuffices(tiles[..][index := Ai], picks)
      modifies tiles
      ensures Valid()
      ensures ok == (old(tiles[index]) == Empty)
      ensures tiles[..] == AfterMove(old(tiles[..]), index, player, picks)
      decreases if player == Ai then 2 else 0
    {
      if tiles[index] == Empty {
        tiles[index] := player;
        if player == Ai {
          AiTurn(picks);
        }
        return true;
      }
      return false;
    }
  }
}
