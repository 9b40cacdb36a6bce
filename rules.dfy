/** The rules of the tic-tac-toe engine as pure functions over the board's
    contents: the 9 tiles in index order, row-major (index = row * 3 + column).
    The class in engine.dfy keeps the board in an array and is proved against
    these definitions. */
module Rules {

  /** What a tile holds. `Ai` is the mark the human's button writes and
      `Player` the mark of the automatic reply: the labels are the program's. */
  datatype TileStatus = Empty | Ai | Player

  datatype Option<T> = None | Some(value: T)

  /** Number of tiles on the board. */
  const Size: nat := 9

  /** The 8 winning lines, in the order the engine tries them:
      rows, then columns, then diagonals. */
  const Lines: seq<seq<int>> :=
    [[0, 1, 2], [3, 4, 5], [6, 7, 8],
     [0, 3, 6], [1, 4, 7], [2, 5, 8],
     [0, 4, 8], [2, 4, 6]]

  predicate IsBoard(b: seq<TileStatus>) {
    |b| == Size
  }

  /** Every index in `idx` names a tile. */
  predicate InRange(idx: seq<int>) {
    forall k :: 0 <= k < |idx| ==> 0 <= idx[k] < Size
  }

  /** The board of a new or restarted game. */
  function EmptyBoard(): (b: seq<TileStatus>)
    ensures IsBoard(b)
    ensures forall i :: 0 <= i < Size ==> b[i] == Empty
  {
    seq(Size, _ => Empty)
  }

  // ---------------------------------------------------------------------------
  // One line

  /** How many of the positions listed in `idx` hold `t` (a position listed
      twice is counted twice, as the engine's counting loop does). */
  function CountOf(b: seq<TileStatus>, idx: seq<int>, t: TileStatus): nat
    requires IsBoard(b) && InRange(idx)
  {
    if idx == [] then 0
    else CountOf(b, idx[..|idx| - 1], t) + (if b[idx[|idx| - 1]] == t then 1 else 0)
  }

  /** What the line test answers for the positions `idx`: `Ai` when it counted
      three `Ai` marks, else `Player` when it counted three `Player` marks,
      else nothing. */
  function LineResult(b: seq<TileStatus>, idx: seq<int>): Option<TileStatus>
    requires IsBoard(b) && InRange(idx)
  {
    if CountOf(b, idx, Ai) == 3 then Some(Ai)
    else if CountOf(b, idx, Player) == 3 then Some(Player)
    else None
  }

  /** All three tiles of `line` hold the mark `t`, and `t` is a mark. */
  predicate Completes(b: seq<TileStatus>, line: seq<int>, t: TileStatus)
    requires IsBoard(b) && |line| == 3 && InRange(line)
  {
    t != Empty && b[line[0]] == t && b[line[1]] == t && b[line[2]] == t
  }

  /** Some mark fills all three tiles of `line`. */
  predicate Complete(b: seq<TileStatus>, line: seq<int>)
    requires IsBoard(b) && |line| == 3 && InRange(line)
  {
    Completes(b, line, b[line[0]])
  }

  /** On a line of three positions, the counting test answers exactly the mark
      that fills the line, and nothing when no mark fills it. */
  lemma {:induction false} LineResultOfTriple(b: seq<TileStatus>, line: seq<int>)
    requires IsBoard(b) && |line| == 3 && InRange(line)
    ensures LineResult(b, line) == if Complete(b, line) then Some(b[line[0]]) else None
    ensures forall t :: LineResult(b, line) == Some(t) <==> Completes(b, line, t)
  {
    var a, c, d := b[line[0]], b[line[1]], b[line[2]];
    assert line[..2][..1][..0] == [];
    forall t ensures CountOf(b, line, t) == (if a == t then 1 else 0) + (if c == t then 1 else 0) + (if d == t then 1 else 0) {
      assert CountOf(b, line[..2][..1], t) == (if a == t then 1 else 0);
      assert CountOf(b, line[..2], t) == (if a == t then 1 else 0) + (if c == t then 1 else 0);
    }
  }

  // ---------------------------------------------------------------------------
  // The whole board

  lemma LinesWellFormed()
    ensures |Lines| == 8
    ensures forall j :: 0 <= j < |Lines| ==> |Lines[j]| == 3 && InRange(Lines[j])
  {
  }

  /** `t` fills some winning line. */
  predicate Wins(b: seq<TileStatus>, t: TileStatus)
    requires IsBoard(b)
  {
    LinesWellFormed();
    exists j :: 0 <= j < 8 && Completes(b, Lines[j], t)
  }

  /** No line before the `j`-th (in check order) is complete. */
  predicate NoneCompleteBefore(b: seq<TileStatus>, j: int)
    requires IsBoard(b) && j <= 8
  {
    LinesWellFormed();
    forall i :: 0 <= i < j ==> !Complete(b, Lines[i])
  }

  /** The line search from the `k`-th line on: the mark of the first complete
      line, or `Empty` when none of them is complete. */
  function FirstWin(b: seq<TileStatus>, k: nat): (w: TileStatus)
    requires IsBoard(b) && k <= 8
    ensures w == Empty <==> forall j :: k <= j < 8 ==> !Complete(b, Lines[j])
    ensures w != Empty ==> exists j :: k <= j < 8 && Completes(b, Lines[j], w) &&
                                        forall i :: k <= i < j ==> !Complete(b, Lines[i])
    decreases 8 - k
  {
    LinesWellFormed();
    if k == 8 then Empty
    else
      LineResultOfTriple(b, Lines[k]);
      match LineResult(b, Lines[k])
      case Some(t) => t
      case None => FirstWin(b, k + 1)
  }

  /** The winner: the mark of the first complete line in check order, or
      `Empty` when no line is complete. */
  function CheckWin(b: seq<TileStatus>): (w: TileStatus)
    requires IsBoard(b)
    ensures w == Empty <==> !Wins(b, Ai) && !Wins(b, Player)
    ensures w != Empty ==> exists j :: 0 <= j < 8 && Completes(b, Lines[j], w) && NoneCompleteBefore(b, j)
  {
    FirstWin(b, 0)
  }

  /** Every tile holds a mark. */
  predicate Full(b: seq<TileStatus>)
    requires IsBoard(b)
  {
    forall i :: 0 <= i < Size ==> b[i] != Empty
  }

  /** The game is over: someone has a line or the board is full. */
  predicate Finished(b: seq<TileStatus>)
    requires IsBoard(b)
  {
    CheckWin(b) != Empty || Full(b)
  }

  /** A mark that fills a line while the other mark fills none is the winner;
      a winner always fills a line. */
  lemma SoleWinner(b: seq<TileStatus>, t: TileStatus, u: TileStatus)
    requires IsBoard(b) && {t, u} == {Ai, Player}
    ensures Wins(b, t) && !Wins(b, u) ==> CheckWin(b) == t
    ensures CheckWin(b) != Empty ==> Wins(b, CheckWin(b))
  {
    var w := CheckWin(b);
    if w != Empty {
      var j :| 0 <= j < 8 && Completes(b, Lines[j], w) && NoneCompleteBefore(b, j);
      assert Wins(b, w);
      assert w == t || w == u;
    }
  }

  /** When both marks fill a line, the order of the lines decides: the winner
      is the mark of the earliest complete line. */
  lemma {:induction false} EarliestLineDecides(b: seq<TileStatus>, j: nat, t: TileStatus)
    requires IsBoard(b) && j < 8
    requires Completes(b, Lines[j], t) && NoneCompleteBefore(b, j)
    ensures CheckWin(b) == t
  {
    var w := CheckWin(b);
    assert Complete(b, Lines[j]);
    var j' :| 0 <= j' < 8 && Completes(b, Lines[j'], w) && NoneCompleteBefore(b, j');
  }

  /** A new or restarted game has no winner and is not finished. */
  lemma EmptyBoardInProgress()
    ensures CheckWin(EmptyBoard()) == Empty
    ensures !Finished(EmptyBoard())
  {
    var b := EmptyBoard();
    assert b[0] == Empty;
    forall t | t != Empty ensures !Wins(b, t) {
      forall j | 0 <= j < 8 ensures !Completes(b, Lines[j], t) {
        LinesWellFormed();
      }
    }
  }

  // ---------------------------------------------------------------------------
  // Moves

  /** The random draws the reply consumes are enough for its loop to stop:
      there is a first draw, and while the game is open some draw names an
      empty tile. This stands in for the random generator eventually hitting
      an empty tile. */
  predicate OracleSuffices(b: seq<TileStatus>, picks: seq<int>)
    requires IsBoard(b) && InRange(picks)
  {
    |picks| > 0 &&
    (!Finished(b) ==> exists j :: 0 <= j < |picks| && b[picks[j]] == Empty)
  }

  /** Where the reply's `Player` mark lands, drawing from `picks[k]` on: the
      first draw that names an empty tile, except that once a draw names an
      occupied tile on a finished board the reply stops with no mark. The
      first draw is placed before finishing is ever looked at. */
  function ReplyIndex(b: seq<TileStatus>, picks: seq<int>, k: nat): (r: Option<int>)
    requires IsBoard(b) && InRange(picks)
    ensures r.Some? ==> 0 <= r.value < Size && b[r.value] == Empty
    ensures r.Some? ==> exists m :: k <= m < |picks| && picks[m] == r.value &&
                                    forall i :: k <= i < m ==> b[picks[i]] != Empty
    decreases |picks| - k
  {
    if k >= |picks| then None
    else if b[picks[k]] == Empty then Some(picks[k])
    else if Finished(b) then None
    else ReplyIndex(b, picks, k + 1)
  }

  /** The board after the automatic reply. */
  function Reply(b: seq<TileStatus>, picks: seq<int>): seq<TileStatus>
    requires IsBoard(b) && InRange(picks)
  {
    match ReplyIndex(b, picks, 0)
    case None => b
    case Some(j) => b[j := Player]
  }

  /** The board after a move of `player` at `index`: nothing on an occupied
      tile; otherwise the mark, followed by the automatic reply when the mark
      is `Ai`. */
  function AfterMove(b: seq<TileStatus>, index: int, player: TileStatus, picks: seq<int>): seq<TileStatus>
    requires IsBoard(b) && 0 <= index < Size && InRange(picks)
  {
    if b[index] != Empty then b
    else if player == Ai then Reply(b[index := Ai], picks)
    else b[index := player]
  }

  /** While the game is open, the reply lands as soon as the draws from `k` on
      name an empty tile. */
  lemma {:induction false} ReplyLandsWhenOpen(b: seq<TileStatus>, picks: seq<int>, k: nat, m: nat)
    requires IsBoard(b) && InRange(picks) && !Finished(b)
    requires k <= m < |picks| && b[picks[m]] == Empty
    ensures ReplyIndex(b, picks, k).Some?
    decreases m - k
  {
    if b[picks[k]] != Empty {
      ReplyLandsWhenOpen(b, picks, k + 1, m);
    }
  }

  /** The reply turns at most one empty tile into `Player` and changes nothing
      else; while the game is open and the draws suffice it turns exactly one.
      On a finished board it still lands when the first draw is empty, and
      otherwise changes nothing. */
  lemma ReplyEffect(b: seq<TileStatus>, picks: seq<int>)
    requires IsBoard(b) && InRange(picks)
    ensures IsBoard(Reply(b, picks))
    ensures Reply(b, picks) == b ||
            exists j :: 0 <= j < Size && b[j] == Empty && Reply(b, picks) == b[j := Player]
    ensures OracleSuffices(b, picks) && !Finished(b) ==>
            exists j :: 0 <= j < Size && b[j] == Empty && Reply(b, picks) == b[j := Player]
    ensures Finished(b) && |picks| > 0 ==>
            Reply(b, picks) == if b[picks[0]] == Empty then b[picks[0] := Player] else b
  {
    match ReplyIndex(b, picks, 0)
    case None =>
      if OracleSuffices(b, picks) && !Finished(b) {
        var m :| 0 <= m < |picks| && b[picks[m]] == Empty;
        ReplyLandsWhenOpen(b, picks, 0, m);
      }
    case Some(j) =>
  }

  /** A move of `player` at `index`. On an occupied tile nothing changes. A
      `Player` (or any non-`Ai`) mark on an empty tile changes that tile only.
      An `Ai` mark on an empty tile sets that tile and then turns at most one
      other previously empty tile into `Player` — exactly one when the game was
      not finished by the `Ai` mark. */
  lemma MoveEffect(b: seq<TileStatus>, index: int, player: TileStatus, picks: seq<int>)
    requires IsBoard(b) && 0 <= index < Size && InRange(picks)
    ensures b[index] != Empty ==> AfterMove(b, index, player, picks) == b
    ensures b[index] == Empty && player != Ai ==> AfterMove(b, index, player, picks) == b[index := player]
    ensures b[index] == Empty && player == Ai ==>
              var a := b[index := Ai];
              AfterMove(b, index, player, picks) == a ||
              exists j :: 0 <= j < Size && j != index && b[j] == Empty &&
                          AfterMove(b, index, player, picks) == a[j := Player]
    ensures b[index] == Empty && player == Ai && OracleSuffices(b[index := Ai], picks) &&
            !Finished(b[index := Ai]) ==>
              exists j :: 0 <= j < Size && j != index && b[j] == Empty &&
                          AfterMove(b, index, player, picks) == b[index := Ai][j := Player]
  {
    if b[index] == Empty && player == Ai {
      var a := b[index := Ai];
      ReplyEffect(a, picks);
      if Reply(a, picks) != a {
        var j :| 0 <= j < Size && a[j] == Empty && Reply(a, picks) == a[j := Player];
        assert j != index && b[j] == Empty;
      }
    }
  }

  // ---------------------------------------------------------------------------
  // Turn balance

  /** How many tiles of `b` hold `t`, each tile counted once. `CountOf`
      counts a list of positions that may repeat; counting the whole board
      directly keeps the effect of one tile update (`TallyUpdate`) simple. */
  function Tally(b: seq<TileStatus>, t: TileStatus): nat
  {
    if b == [] then 0 else Tally(b[..|b| - 1], t) + (if b[|b| - 1] == t then 1 else 0)
  }

  lemma {:induction false} TallyUpdate(b: seq<TileStatus>, j: int, v: TileStatus, t: TileStatus)
    requires 0 <= j < |b|
    ensures Tally(b[j := v], t) == Tally(b, t) - (if b[j] == t then 1 else 0) + (if v == t then 1 else 0)
    decreases |b|
  {
    var n := |b| - 1;
    if j < n {
      assert b[j := v][..n] == b[..n][j := v];
      TallyUpdate(b[..n], j, v, t);
    } else {
      assert b[j := v][..n] == b[..n];
    }
  }

  /** A human turn from a board where both sides have moved equally often
      keeps them equal, unless the `Ai` mark finished the game and the reply
      then found no empty first draw: then `Ai` is one mark ahead. */
  lemma HumanTurnKeepsBalance(b: seq<TileStatus>, index: int, picks: seq<int>)
    requires IsBoard(b) && 0 <= index < Size && InRange(picks)
    requires b[index] == Empty && OracleSuffices(b[index := Ai], picks)
    requires Tally(b, Ai) == Tally(b, Player)
    ensures var c := AfterMove(b, index, Ai, picks);
            Tally(c, Ai) == Tally(c, Player) ||
            (Finished(b[index := Ai]) && Tally(c, Ai) == Tally(c, Player) + 1)
  {
    var a := b[index := Ai];
    TallyUpdate(b, index, Ai, Ai);
    TallyUpdate(b, index, Ai, Player);
    assert Tally(a, Ai) == Tally(a, Player) + 1;
    MoveEffect(b, index, Ai, picks);
    var c := AfterMove(b, index, Ai, picks);
    if c != a {
      var j :| 0 <= j < Size && j != index && b[j] == Empty && c == a[j := Player];
      TallyUpdate(a, j, Player, Ai);
      TallyUpdate(a, j, Player, Player);
      assert Tally(c, Ai) == Tally(c, Player);
    } else {
      assert Finished(a);
    }
  }

  /** A single mark on an otherwise empty board neither wins nor fills it. */
  lemma FirstMarkLeavesGameOpen(index: int)
    requires 0 <= index < Size
    ensures !Finished(EmptyBoard()[index := Ai])
  {
    var a := EmptyBoard()[index := Ai];
    assert !Full(a) by {
      assert a[if index == 0 then 1 else 0] == Empty;
    }
    LinesWellFormed();
    forall t, j | 0 <= j < 8 && t != Empty ensures !Completes(a, Lines[j], t) {
      var line := Lines[j];
      assert line[0] != line[1] by {
        assert Lines[j] == [[0, 1, 2], [3, 4, 5], [6, 7, 8], [0, 3, 6], [1, 4, 7], [2, 5, 8], [0, 4, 8], [2, 4, 6]][j];
      }
    }
    assert !Wins(a, Ai) && !Wins(a, Player);
  }

  /** The first human turn of a game: the board is still open after the
      `Ai` mark, so the reply lands and exactly two tiles are taken. */
  lemma FirstTurnTakesTwoTiles(index: int, picks: seq<int>)
    requires 0 <= index < Size && InRange(picks)
    requires OracleSuffices(EmptyBoard()[index := Ai], picks)
    ensures var c := AfterMove(EmptyBoard(), index, Ai, picks);
            c[index] == Ai &&
            exists j :: 0 <= j < Size && j != index && c[j] == Player &&
                        c == EmptyBoard()[index := Ai][j := Player]
  {
    var a := EmptyBoard()[index := Ai];
    FirstMarkLeavesGameOpen(index);
    MoveEffect(EmptyBoard(), index, Ai, picks);
    var c := AfterMove(EmptyBoard(), index, Ai, picks);
    var j :| 0 <= j < Size && j != index && EmptyBoard()[j] == Empty && c == a[j := Player];
    assert c[j] == Player;
  }

  // ---------------------------------------------------------------------------
  // Scenarios

  /** Three `Player` marks on the top row, the first line checked: `Player`
      wins and the game is over, whatever the other tiles hold. */
  lemma TopRowWins(b: seq<TileStatus>)
    requires IsBoard(b) && b[0] == Player && b[1] == Player && b[2] == Player
    ensures CheckWin(b) == Player && Finished(b)
  {
    EarliestLineDecides(b, 0, Player);
  }

  /** A full board on which neither mark fills a line is a draw: no winner,
      and the game is over. */
  lemma FullBoardWithoutLineIsDraw(b: seq<TileStatus>)
    requires IsBoard(b) && Full(b) && !Wins(b, Ai) && !Wins(b, Player)
    ensures CheckWin(b) == Empty && Finished(b)
  {
  }

  /** An instance of the draw: a full board with alternating marks and no
      complete line. */
  lemma SampleDraw()
    ensures var b := [Ai, Player, Ai, Ai, Player, Player, Player, Ai, Ai];
            CheckWin(b) == Empty && Finished(b)
  {
    var b := [Ai, Player, Ai, Ai, Player, Player, Player, Ai, Ai];
    LinesWellFormed();
    forall t, j | 0 <= j < 8 ensures !Completes(b, Lines[j], t) {
      assert Lines[j] == [[0, 1, 2], [3, 4, 5], [6, 7, 8], [0, 3, 6], [1, 4, 7], [2, 5, 8], [0, 4, 8], [2, 4, 6]][j];
    }
    FullBoardWithoutLineIsDraw(b);
  }

  /** The board of the scenario below once the human's `Ai` mark at 8 has
      completed the right column: `Ai` is the winner. */
  lemma RightColumnWinsForAi()
    ensures CheckWin([Player, Empty, Ai, Player, Empty, Ai, Empty, Empty, Ai]) == Ai
  {
    var a := [Player, Empty, Ai, Player, Empty, Ai, Empty, Empty, Ai];
    LinesWellFormed();
    assert NoneCompleteBefore(a, 5) by {
      forall i | 0 <= i < 5 ensures !Complete(a, Lines[i]) {
        assert Lines[i] == [[0, 1, 2], [3, 4, 5], [6, 7, 8], [0, 3, 6], [1, 4, 7]][i];
      }
    }
    EarliestLineDecides(a, 5, Ai);
  }

  /** The same board after a `Player` mark at 6: the left column, checked
      before the right one, makes `Player` the winner. */
  lemma LeftColumnWinsForPlayer()
    ensures CheckWin([Player, Empty, Ai, Player, Empty, Ai, Player, Empty, Ai]) == Player
  {
    var c := [Player, Empty, Ai, Player, Empty, Ai, Player, Empty, Ai];
    LinesWellFormed();
    assert NoneCompleteBefore(c, 3) by {
      forall i | 0 <= i < 3 ensures !Complete(c, Lines[i]) {
        assert Lines[i] == [[0, 1, 2], [3, 4, 5], [6, 7, 8]][i];
      }
    }
    EarliestLineDecides(c, 3, Player);
  }

  /** The reply after a win can overturn it: `Ai` holds tiles 2 and 5 and
      `Player` holds 0 and 3. The human's `Ai` mark at 8 completes the right
      column, but a first draw of 6 still lands and completes the left column,
      which is checked earlier, so the reported winner is `Player`. */
  lemma ReplyAfterWinOverturnsIt()
    ensures var b := [Player, Empty, Ai, Player, Empty, Ai, Empty, Empty, Empty];
            CheckWin(b[8 := Ai]) == Ai &&
            AfterMove(b, 8, Ai, [6]) == b[8 := Ai][6 := Player] &&
            CheckWin(AfterMove(b, 8, Ai, [6])) == Player
  {
    var b := [Player, Empty, Ai, Player, Empty, Ai, Empty, Empty, Empty];
    var a := [Player, Empty, Ai, Player, Empty, Ai, Empty, Empty, Ai];
    var c := [Player, Empty, Ai, Player, Empty, Ai, Player, Empty, Ai];
    assert b[8 := Ai] == a;
    RightColumnWinsForAi();
    assert ReplyIndex(a, [6], 0) == Some(6);
    assert a[6 := Player] == c;
    LeftColumnWinsForPlayer();
  }
}
