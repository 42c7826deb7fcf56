/**
 * class NoGo (nogo_solver.hpp, nogo_solver.cpp): the engine behind the text
 * protocol. It owns the board, the searcher and (as the global `hash` of the
 * source) the transposition table, and keeps `line_of_plays`, a 101-slot array
 * whose slot 0 counts the moves logged in slots 1, 2, ... so that they can be
 * taken back.
 */
module Engine {
  import opened BoardUtil
  import opened Board
  import opened Game
  import opened Entry
  import opened Table
  import opened Fingerprint
  import opened HashTable
  import opened Search
  import opened Records

  /**
   * The logged moves are distinct on-board points, each holding a stone: undo can
   * always take back the last one.
   */
  predicate Logged(cells: seq<int>, h: int, w: int, log: seq<int>)
  {
    && w >= 0
    && (forall k :: 0 <= k < |log| ==> OnBoard(log[k], h, w) && 0 <= log[k] < |cells| && cells[log[k]] != EMPTY)
    && (forall j, k :: 0 <= j < k < |log| ==> log[j] != log[k])
  }

  /** Playing on an empty point and logging it keeps the log on stones. */
  lemma LoggedPush(cells: seq<int>, h: int, w: int, log: seq<int>, p: int, color: int)
    requires Logged(cells, h, w, log) && OnBoard(p, h, w) && 0 <= p < |cells| && cells[p] == EMPTY
    requires color != EMPTY
    ensures Logged(cells[p := color], h, w, log + [p])
  {
    var log' := log + [p];
    forall j, k | 0 <= j < k < |log'| ensures log'[j] != log'[k] {
      if k == |log| {
        assert cells[log[j]] != EMPTY;
      }
    }
  }

  /** Taking back the last logged stone keeps the rest of the log on stones. */
  lemma LoggedPop(cells: seq<int>, h: int, w: int, log: seq<int>)
    requires Logged(cells, h, w, log) && |log| > 0
    ensures Logged(cells[log[|log| - 1] := EMPTY], h, w, log[..|log| - 1])
  {
    var last := log[|log| - 1];
    var rest := log[..|log| - 1];
    forall k | 0 <= k < |rest| ensures rest[k] != last {
      assert rest[k] == log[k];
    }
  }

  /** The table has the child of `move` as lost, and `move` is on the board. */
  predicate TableLoses(hs: Hash, hashcode: nat, move: int, color: int)
    reads hs
    requires hs.Valid()
  {
    OnBoard(move, hs.height, hs.width) && ChildGet(hs, hashcode, move, color) == 0
  }

  /** `move` is the first of `legal` whose child the table holds as lost: the move h_etc returns. */
  ghost predicate FirstTableLoss(hs: Hash, hashcode: nat, legal: seq<int>, color: int, move: int)
    reads hs
    requires hs.Valid()
  {
    exists k :: (0 <= k < |legal| && move == legal[k] && TableLoses(hs, hashcode, move, color)
      && forall j :: 0 <= j < k ==> !TableLoses(hs, hashcode, legal[j], color))
  }

  /** The index h_etc stops at gives the first move whose child the table holds as lost. */
  lemma FirstTableLossAt(hs: Hash, hashcode: nat, legal: seq<int>, color: int, i: int)
    requires hs.Valid() && 0 <= i < |legal|
    requires forall k :: 0 <= k < |legal| ==> OnBoard(legal[k], hs.height, hs.width)
    requires ChildGet(hs, hashcode, legal[i], color) == 0
    requires forall k :: 0 <= k < i ==> ChildGet(hs, hashcode, legal[k], color) != 0
    ensures FirstTableLoss(hs, hashcode, legal, color, legal[i])
  {
    assert TableLoses(hs, hashcode, legal[i], color);
  }

  class NoGo {
    var board: NoGoBoard
    var search: Search
    var hs: Hash
    var linePlays: array<int>     // line_of_plays

    ghost predicate Valid()
      reads this, board, search, hs, linePlays
    {
      && board.Valid() && search.Valid() && hs.Valid()
      && board.height == hs.height == search.height && board.width == hs.width == search.width
      && linePlays.Length == 101 && 0 <= linePlays[0] <= 100
      && Logged(board.cells, board.height, board.width, linePlays[1..linePlays[0] + 1])
      && ProofSound(hs.table, board.height, board.width)
    }

    /**
     * The player to move is the one alternate play from the empty board gives: what
     * solve and prove take for granted of the position. A cleared board has it, and
     * play, undo and genmove keep it.
     */
    ghost predicate InTurn()
      reads this, board
      requires board.Valid()
    {
      board.currentPlayer == ToMove(board.height, board.width, board.cells)
    }

    /** The logged moves, oldest first. */
    function Log(): (log: seq<int>)
      reads this, linePlays
      requires linePlays.Length == 101 && 0 <= linePlays[0] <= 100
      ensures |log| == linePlays[0]
    {
      linePlays[1..linePlays[0] + 1]
    }

    /** NoGo(board, search): an engine with an empty log, over a table with no proof flag. */
    constructor (b: NoGoBoard, s: Search, t: Hash)
      requires b.Valid() && s.Valid() && t.Valid()
      requires b.height == t.height == s.height && b.width == t.width == s.width
      requires forall hc: nat :: Lookup(t.table, hc).Some? ==> !ProofBit(Lookup(t.table, hc).value)
      ensures Valid() && board == b && search == s && hs == t && Log() == []
    {
      board, search, hs := b, s, t;
      linePlays := new int[101](_ => 0);
    }

    /** clear_board: an empty board of the same size with BLACK to move, and an empty log. */
    method ClearBoard()
      requires Valid()
      modifies board, linePlays
      ensures Valid() && Log() == []
      ensures board.height == old(board.height) && board.width == old(board.width)
      ensures board.currentPlayer == BLACK && InTurn()
      ensures forall q :: 0 <= q < |board.cells| ==>
        board.cells[q] == (if OnBoard(q, board.height, board.width) then EMPTY else BORDER)
    {
      board.Reset(board.height, board.width);
      linePlays[0] := 0;
      FreshToMove(board.height, board.width, board.cells);
    }

    /**
     * play_move: -2 when `color` is not the player to move, -1 when the move is
     * illegal (both change nothing), else 0 with the move played and logged.
     */
    method PlayMove(color: int, point: int) returns (code: int)
      requires Valid()
      requires color == board.currentPlayer ==>
        0 <= point < board.maxpoint && (IsLegalMove(board.cells, board.ns, point, color) ==> linePlays[0] < 100)
      modifies board, linePlays
      ensures Valid()
      ensures board.height == old(board.height) && board.width == old(board.width)
      ensures code == 0 || code == -1 || code == -2
      ensures code == -2 <==> color != old(board.currentPlayer)
      ensures code == -1 <==> color == old(board.currentPlayer) && !IsLegalMove(old(board.cells), board.ns, point, color)
      ensures code != 0 ==> board.cells == old(board.cells) && board.currentPlayer == old(board.currentPlayer)
      ensures code != 0 ==> Log() == old(Log())
      ensures code == 0 ==> board.cells == old(board.cells)[point := color] && board.currentPlayer == Opponent(color)
      ensures code == 0 ==> Log() == old(Log()) + [point]
      ensures old(InTurn()) ==> InTurn()
    {
      if color != board.currentPlayer {
        return -2;
      }
      var success := PlayAndLog(point, color);
      code := if success then 0 else -1;
      if success {
        PlaceStone(board.height, board.width, old(board.cells), point, color);
      }
    }

    /** board.play_move with the legality check, and on success the move appended to the log. */
    method PlayAndLog(point: int, color: int) returns (ok: bool)
      requires Valid() && 0 <= point < board.maxpoint && (color == BLACK || color == WHITE)
      requires IsLegalMove(board.cells, board.ns, point, color) ==> linePlays[0] < 100
      modifies board, linePlays
      ensures Valid()
      ensures board.height == old(board.height) && board.width == old(board.width)
      ensures ok == IsLegalMove(old(board.cells), board.ns, point, color)
      ensures !ok ==> board.cells == old(board.cells) && board.currentPlayer == old(board.currentPlayer)
      ensures !ok ==> Log() == old(Log())
      ensures ok ==> board.cells == old(board.cells)[point := color] && board.currentPlayer == Opponent(color)
      ensures ok ==> Log() == old(Log()) + [point]
    {
      ok := board.PlayMove(point, color, true);
      if !ok {
        return;
      }
      LegalMoveOnBoard(old(board.cells), board.height, board.width, point, color);
      LoggedPush(old(board.cells), board.height, board.width, Log(), point, color);
      PushLog(point);
    }

    /** Appends `point` to line_of_plays: the point goes in the next free slot and the count in slot 0 grows by one. */
    method PushLog(point: int)
      requires linePlays.Length == 101 && 0 <= linePlays[0] < 100
      modifies linePlays
      ensures 0 <= linePlays[0] <= 100 && Log() == old(Log()) + [point]
    {
      var n := linePlays[0] + 1;
      linePlays[n] := point;
      linePlays[0] := n;
      assert Log() == old(Log()) + [point];
    }

    /**
     * undo: -1 on an empty log (nothing changes); else 0, with the last logged
     * move taken off the board and out of the log.
     */
    method Undo() returns (code: int)
      requires Valid()
      modifies board, linePlays
      ensures Valid()
      ensures board.height == old(board.height) && board.width == old(board.width)
      ensures code == 0 || code == -1
      ensures code == -1 <==> old(Log()) == []
      ensures code == -1 ==> board.cells == old(board.cells) && board.currentPlayer == old(board.currentPlayer)
      ensures code == -1 ==> Log() == old(Log())
      ensures code == 0 ==> var last := old(Log())[|old(Log())| - 1];
        && board.cells == old(board.cells)[last := EMPTY]
        && board.currentPlayer == Opponent(old(board.currentPlayer))
        && Log() == old(Log())[..|old(Log())| - 1]
      ensures old(InTurn()) ==> InTurn()
    {
      var d := linePlays[0];
      if d == 0 {
        return -1;
      }
      ghost var log := Log();
      assert linePlays[d] == log[d - 1];
      assert OnBoard(log[d - 1], board.height, board.width) && old(board.cells)[log[d - 1]] != EMPTY;
      var undone := board.UndoMove(linePlays[d]);
      LiftStone(board.height, board.width, old(board.cells), log[d - 1]);
      LoggedPop(old(board.cells), board.height, board.width, log);
      linePlays[0] := d - 1;
      assert Log() == log[..d - 1];
      code := 0;
    }

    /** play_move then undo by the player to move leaves board, turn and log as they were. */
    method PlayThenUndo(point: int) returns (code: int)
      requires Valid() && 0 <= point < board.maxpoint
      requires IsLegalMove(board.cells, board.ns, point, board.currentPlayer) ==> linePlays[0] < 100
      modifies board, linePlays
      ensures Valid()
      ensures board.cells == old(board.cells) && board.currentPlayer == old(board.currentPlayer)
      ensures Log() == old(Log())
      ensures code == (if IsLegalMove(old(board.cells), board.ns, point, old(board.currentPlayer)) then 0 else -1)
    {
      code := PlayMove(board.currentPlayer, point);
      if code == 0 {
        var undoCode := Undo();
        assert board.cells == old(board.cells)[point := EMPTY];
      }
    }

    /** The fingerprint of the position on the board. */
    ghost function Hashcode(): nat
      reads this, board, hs
      requires board.Valid() && hs.Valid()
    {
      FullHash(board.height, board.width, board.cells)
    }

    /** The table holds the position as won and `move` is the first legal move whose child it holds as lost. */
    ghost predicate TableMove(move: int)
      reads this, board, hs
      requires board.Valid() && hs.Valid()
    {
      && hs.Get(Lcg(Hashcode())) == 1
      && FirstTableLoss(hs, Hashcode(), LegalMoves(board.cells, board.ns, board.currentPlayer), board.currentPlayer, move)
    }

    /** The table gives no move: it does not hold the position as won, or holds no child of it as lost. */
    ghost predicate NoTableMove()
      reads this, board, hs
      requires board.Valid() && hs.Valid()
    {
      var legal := LegalMoves(board.cells, board.ns, board.currentPlayer);
      hs.Get(Lcg(Hashcode())) != 1 ||
      forall k :: 0 <= k < |legal| ==> !TableLoses(hs, Hashcode(), legal[k], board.currentPlayer)
    }

    /**
     * What generate_random_move can return for the player to move: one of the legal
     * moves, or PASS exactly when there is none.
     */
    ghost predicate RandomOffer(m: int)
      reads this, board
      requires board.Valid()
    {
      var legal := LegalMoves(board.cells, board.ns, board.currentPlayer);
      if legal == [] then m == PASS else m in legal
    }

    /**
     * get_move: when the table holds the position as won, the first legal move whose
     * child it holds as lost (the scan of h_etc); otherwise `randomMove`, the move
     * generate_random_move would return. Either way a legal move, or PASS exactly
     * when there is none.
     */
    method GetMove(color: int, randomMove: int) returns (move: int)
      requires Valid() && RandomOffer(randomMove)
      modifies board
      ensures unchanged(board)
      ensures RandomOffer(move)
      ensures old(NoTableMove()) ==> move == randomMove
      ensures !old(NoTableMove()) ==> old(TableMove(move))
    {
      var found;
      found, move := TableChoice();
      if !found {
        move := randomMove;
      }
    }

    /**
     * The table part of get_move: when the table holds the position as won, the
     * first legal move whose child it holds as lost, found by the scan of h_etc.
     */
    method TableChoice() returns (found: bool, move: int)
      requires Valid()
      modifies board
      ensures unchanged(board)
      ensures found == !old(NoTableMove())
      ensures found ==> old(TableMove(move)) && move in LegalMoves(board.cells, board.ns, board.currentPlayer)
    {
      var grid := board.TwoDBoard();
      HashOfBoard(board.height, board.width, board.cells);
      var hashcode := hs.HashFunc(grid);
      var trueHashcode := Lcg(hashcode);
      var value := hs.Get(trueHashcode);
      move := PASS;
      if value == 1 {
        var legalMoves := board.GenerateLegalMoves(board.currentPlayer);
        LegalOnBoard(board, board.currentPlayer, legalMoves);
        var i := search.HEtc(hs, hashcode, legalMoves, board.currentPlayer);
        if i != -1 {
          FirstTableLossAt(hs, hashcode, legalMoves, board.currentPlayer, i);
          return true, legalMoves[i];
        }
      }
      return false, move;
    }

    /** On a small board with a sound table, the move get_move takes from the table wins. */
    lemma TableMoveWins(move: int)
      requires Valid() && TableMove(move)
      requires Sound(hs.table, board.height, board.width) && Small(board.height, board.width)
      requires board.currentPlayer == ToMove(board.height, board.width, board.cells)
      ensures move in LegalMoves(board.cells, board.ns, board.currentPlayer) && 0 <= move < |board.cells|
      ensures Value(board.cells[move := board.currentPlayer], board.ns, Opponent(board.currentPlayer)) == 0
    {
      var legal := LegalMoves(board.cells, board.ns, board.currentPlayer);
      var k :| 0 <= k < |legal| && move == legal[k] && TableLoses(hs, Hashcode(), move, board.currentPlayer);
      LegalMovesSpec(board.cells, board.ns, board.currentPlayer);
      EtcWins(hs, board.cells, move, board.currentPlayer);
    }

    /** Board, turn and log are the given ones. */
    ghost predicate Kept(cells: seq<int>, player: int, log: seq<int>)
      reads this, board, search, hs, linePlays
      requires Valid()
    {
      board.cells == cells && board.currentPlayer == player && Log() == log
    }

    /** Board, turn and log are the given ones after `color` played the legal move p. */
    ghost predicate Played(cells: seq<int>, log: seq<int>, p: int, color: int)
      reads this, board, search, hs, linePlays
      requires Valid()
    {
      && IsLegalMove(cells, board.ns, p, color) && 0 <= p < |cells|
      && board.cells == cells[p := color] && board.currentPlayer == Opponent(color) && Log() == log + [p]
    }

    /**
     * What genmove leaves for the player to move: PASS with nothing changed exactly
     * when `color` has no legal move, otherwise one of its legal moves played and logged.
     */
    ghost predicate Outcome(cells: seq<int>, player: int, log: seq<int>, r: int, color: int)
      reads this, board, search, hs, linePlays
      requires Valid()
    {
      || (r == PASS && LegalMoves(cells, board.ns, color) == [] && Kept(cells, player, log))
      || (r in LegalMoves(cells, board.ns, color) && Played(cells, log, r, color))
    }

    /**
     * genmove: -2 when `color` is not the player to move; otherwise the move of
     * get_move: PASS is passed through, a legal move is played, logged and returned
     * (an illegal one would be returned negated, but get_move offers none). When the
     * table holds the position as won, the move played is the table's move.
     */
    method GenMove(color: int, randomMove: int) returns (r: int)
      requires Valid()
      requires color == board.currentPlayer && LegalMoves(board.cells, board.ns, color) != [] ==> linePlays[0] < 100
      requires RandomOffer(randomMove)
      modifies board, linePlays
      ensures Valid()
      ensures board.height == old(board.height) && board.width == old(board.width)
      ensures color != old(board.currentPlayer) ==>
        r == -2 && Kept(old(board.cells), old(board.currentPlayer), old(Log()))
      ensures color == old(board.currentPlayer) ==> Outcome(old(board.cells), old(board.currentPlayer), old(Log()), r, color)
      ensures color == old(board.currentPlayer) && !old(NoTableMove()) ==>
        old(TableMove(r)) && Played(old(board.cells), old(Log()), r, color)
      ensures old(InTurn()) ==> InTurn()
    {
      if color != board.currentPlayer {
        return -2;
      }
      r := ChooseAndPlay(color, randomMove);
      if r != PASS {
        PlaceStone(board.height, board.width, old(board.cells), r, color);
      }
    }

    /** genmove for the player to move: get_move's choice, then play it or refuse it. */
    method ChooseAndPlay(color: int, randomMove: int) returns (r: int)
      requires Valid() && color == board.currentPlayer
      requires LegalMoves(board.cells, board.ns, color) != [] ==> linePlays[0] < 100
      requires RandomOffer(randomMove)
      modifies board, linePlays
      ensures Valid()
      ensures board.height == old(board.height) && board.width == old(board.width)
      ensures Outcome(old(board.cells), old(board.currentPlayer), old(Log()), r, color)
      ensures !old(NoTableMove()) ==> old(TableMove(r)) && Played(old(board.cells), old(Log()), r, color)
    {
      var move := GetMove(color, randomMove);
      r := PassOrPlay(move, color);
    }

    /** genmove once get_move has chosen: PASS is passed through, any other point played or refused. */
    method PassOrPlay(move: int, color: int) returns (r: int)
      requires Valid() && color == board.currentPlayer
      requires LegalMoves(board.cells, board.ns, color) != [] ==> linePlays[0] < 100
      requires RandomOffer(move)
      modifies board, linePlays
      ensures Valid()
      ensures board.height == old(board.height) && board.width == old(board.width)
      ensures r == move
      ensures Outcome(old(board.cells), old(board.currentPlayer), old(Log()), r, color)
    {
      LegalMovesSpec(board.cells, board.ns, color);
      if move == PASS {
        return move;
      }
      r := PlayOrRefuse(move, color);
    }

    /** The rest of genmove once get_move has chosen a point: play and log it if legal, else return it negated. */
    method PlayOrRefuse(move: int, color: int) returns (r: int)
      requires Valid() && color == board.currentPlayer && 0 <= move < board.maxpoint
      requires IsLegalMove(board.cells, board.ns, move, color) ==> linePlays[0] < 100
      modifies board, linePlays
      ensures Valid()
      ensures board.height == old(board.height) && board.width == old(board.width)
      ensures IsLegalMove(old(board.cells), board.ns, move, color) ==>
        r == move && Played(old(board.cells), old(Log()), move, color)
      ensures !IsLegalMove(old(board.cells), board.ns, move, color) ==>
        r == -move && Kept(old(board.cells), old(board.currentPlayer), old(Log()))
    {
      var legal := board.IsLegal(move, color);
      if legal {
        var played := PlayAndLog(move, color);
        r := move;
      } else {
        r := -1 * move;
      }
    }

    /**
     * solve: the negamax value of the position for the player to move, 1 for a win
     * and 0 for a loss; the position and its value are left in the table. The
     * starting depth is the number of stones on the board; it only weights the
     * history bonus, so the history table is the one part of the search it changes.
     */
    method Solve() returns (value: int)
      requires Valid() && Small(board.height, board.width)
      requires board.currentPlayer == ToMove(board.height, board.width, board.cells)
      requires Sound(hs.table, board.height, board.width)
      modifies board, hs, search`hhtable
      ensures Valid() && Sound(hs.table, board.height, board.width)
      ensures board.height == old(board.height) && board.width == old(board.width)
      ensures Kept(old(board.cells), old(board.currentPlayer), old(Log()))
      ensures value == Value(board.cells, board.ns, board.currentPlayer)
      ensures hs.Get(Key(board.height, board.width, board.cells)) == value
    {
      var grid := board.TwoDBoard();
      HashOfBoard(board.height, board.width, board.cells);
      var hashcode := hs.HashFunc(grid);
      var emptyPoints := board.GetEmptyPoints();
      var d := board.height * board.width - |emptyPoints|;
      value := search.Negamax(board, hs, hashcode, d);
      assert ProofSound(hs.table, board.height, board.width);
    }

    /**
     * prove: re-derive the table's value for the position, flagging each entry whose
     * value the derivation confirms. `proved` is the verdict the source reports on
     * the error stream; the result is the value found. Only proof flags change.
     */
    method Prove() returns (value: bool, proved: bool)
      requires Valid() && Small(board.height, board.width)
      requires board.currentPlayer == ToMove(board.height, board.width, board.cells)
      modifies board, hs
      ensures Valid() && SameValues(old(hs.table), hs.table)
      ensures board.height == old(board.height) && board.width == old(board.width)
      ensures Kept(old(board.cells), old(board.currentPlayer), old(Log()))
      ensures Lookup(old(hs.table), Key(board.height, board.width, board.cells)).None? ==>
        !value && !proved && hs.table == old(hs.table)
      ensures proved ==> Lookup(hs.table, Key(board.height, board.width, board.cells)).Some?
      ensures proved ==> var e := Lookup(hs.table, Key(board.height, board.width, board.cells)).value;
        ProofBit(e) && ValueBit(e) == (if value then 1 else 0) == Value(board.cells, board.ns, board.currentPlayer)
      ensures value <==> old(TableWin(hs, FullHash(board.height, board.width, board.cells), board.cells, board.ns, board.currentPlayer))
      ensures old(Sound(hs.table, board.height, board.width)) ==> Sound(hs.table, board.height, board.width)
    {
      var grid := board.TwoDBoard();
      HashOfBoard(board.height, board.width, board.cells);
      var hashcode := hs.HashFunc(grid);
      value, proved := search.ProofNegamax(board, hs, hashcode);
      if old(Sound(hs.table, board.height, board.width)) {
        SoundSameValues(old(hs.table), hs.table, board.height, board.width);
      }
    }

    /**
     * boardsize: an empty h x w board with BLACK to move, a table emptied for the
     * new dimensions (its counters kept), a zeroed history table and an empty log.
     */
    method Boardsize(h: int, w: int)
      requires Valid() && h >= 1 && w >= 1
      modifies board, hs, search, linePlays
      ensures Valid() && Log() == [] && hs.table == map[]
      ensures board.height == h && board.width == w && board.currentPlayer == BLACK
      ensures forall q :: 0 <= q < |board.cells| ==>
        board.cells[q] == (if OnBoard(q, h, w) then EMPTY else BORDER)
      ensures InTurn() && Sound(hs.table, h, w)
      ensures hs.size == old(hs.size) && hs.proofSize == old(hs.proofSize)
      ensures forall s, k :: 0 <= s < 2 && 0 <= k < h * w ==> search.hhtable[s][k] == 0
    {
      board.Reset(h, w);
      hs.ChangeBoardsize(h, w);
      search.Initialize(h, w);
      linePlays[0] := 0;
      FreshToMove(h, w, board.cells);
    }

    /**
     * showboard: the rows of twoD_board as get_twoD_board writes them, the top row
     * first, one line per row.
     */
    method Showboard() returns (text: string)
      requires Valid()
      ensures text == GridText(TwoD(board.height, board.width, board.cells), board.height)
      ensures CountChar(text, '\n') == board.height - 1
    {
      var grid := board.TwoDBoard();
      HashOfBoard(board.height, board.width, board.cells);
      text := GetTwoDBoard(grid);
      GridTextShape(grid, |grid|);
    }

    /**
     * store_solution: the table written in proof-only mode (the default of store);
     * loading the bytes back gives exactly the proved entries, their flags cleared.
     */
    method StoreSolution(fileName: string) returns (name: string, bytes: seq<Byte>)
      requires Valid()
      ensures name == fileName && bytes == StoreFrom(hs.table, true, 0)
      ensures ReloadsProved(hs.table, hs.size)
    {
      name, bytes := hs.Store(fileName, true);
      ProofOnlyReload(hs.table, hs.size);
    }

    /** plays_to_string: the names of the logged moves, oldest first, with nothing between them. */
    method PlaysToString() returns (plays: string)
      requires Valid()
      ensures plays == PlaysText(Log(), board.width)
    {
      plays := LogText(linePlays, board.width);
    }

    /** The move get_move takes from the table is a legal move. */
    lemma TableMoveLegal(move: int)
      requires Valid() && TableMove(move)
      ensures move in LegalMoves(board.cells, board.ns, board.currentPlayer)
      ensures 0 <= move < board.maxpoint && IsLegalMove(board.cells, board.ns, move, board.currentPlayer)
    {
      LegalMovesSpec(board.cells, board.ns, board.currentPlayer);
    }
  }

  /** The names of the moves of a log written one after another. */
  function PlaysText(log: seq<int>, w: int): string
    requires w >= 0
  {
    if log == [] then "" else PlaysText(log[..|log| - 1], w) + PointToString(log[|log| - 1], w)
  }

  /** The loop of plays_to_string over slots 1 .. line_of_plays[0]. */
  method LogText(linePlays: array<int>, w: int) returns (plays: string)
    requires linePlays.Length == 101 && 0 <= linePlays[0] <= 100 && w >= 0
    ensures plays == PlaysText(linePlays[1..linePlays[0] + 1], w)
  {
    ghost var log := linePlays[1..linePlays[0] + 1];
    plays := "";
    var numPlays := linePlays[0];
    var i := 1;
    while i < numPlays + 1
      invariant 1 <= i <= numPlays + 1
      invariant plays == PlaysText(log[..i - 1], w)
    {
      assert log[..i] == log[..i - 1] + [linePlays[i]];
      PlaysTextSnoc(log[..i - 1], linePlays[i], w);
      plays := plays + PointToString(linePlays[i], w);
      i := i + 1;
    }
    assert log[..numPlays] == log;
  }

  lemma PlaysTextSnoc(log: seq<int>, p: int, w: int)
    requires w >= 0
    ensures PlaysText(log + [p], w) == PlaysText(log, w) + PointToString(p, w)
  {
    assert (log + [p])[..|log|] == log;
  }

  /** The characters of s that are not decimal digits, in order. */
  function Letters(s: string): string
  {
    if s == [] then "" else Letters(s[..|s| - 1]) + (if IsDigit(s[|s| - 1]) then "" else [s[|s| - 1]])
  }

  /** The column letter of an on-board point. */
  function ColumnLetter(p: int, w: int): char
    requires w >= 0
  {
    ((64 + Rem(p, Stride(w))) % 256) as char
  }

  /** The column letters of the moves of a log, in order. */
  function ColumnLetters(log: seq<int>, w: int): string
    requires w >= 0
  {
    if log == [] then "" else ColumnLetters(log[..|log| - 1], w) + [ColumnLetter(log[|log| - 1], w)]
  }

  lemma {:induction false} LettersAppend(s: string, t: string)
    ensures Letters(s + t) == Letters(s) + Letters(t)
    decreases |t|
  {
    if t != [] {
      var t' := t[..|t| - 1];
      assert (s + t)[..|s + t| - 1] == s + t';
      LettersAppend(s, t');
    } else {
      assert s + t == s;
    }
  }

  lemma {:induction false} DigitsHaveNoLetters(s: string)
    requires forall i :: 0 <= i < |s| ==> IsDigit(s[i])
    ensures Letters(s) == ""
    decreases |s|
  {
    if s != [] {
      DigitsHaveNoLetters(s[..|s| - 1]);
    }
  }

  /**
   * On a board of at most 26 columns, plays_to_string can be cut back into moves:
   * its non-digit characters are exactly the column letters of the logged moves,
   * one per move, in order.
   */
  lemma {:induction false} PlaysTextLetters(log: seq<int>, h: int, w: int)
    requires 0 < w <= 26 && forall k :: 0 <= k < |log| ==> OnBoard(log[k], h, w)
    ensures Letters(PlaysText(log, w)) == ColumnLetters(log, w)
    decreases |log|
  {
    if log != [] {
      var init, p := log[..|log| - 1], log[|log| - 1];
      assert forall k :: 0 <= k < |init| ==> init[k] == log[k];
      PlaysTextLetters(init, h, w);
      LettersAppend(PlaysText(init, w), PointToString(p, w));
      PointLetters(p, h, w);
    }
  }

  /** The name of an on-board point has one non-digit character: its column letter. */
  lemma PointLetters(p: int, h: int, w: int)
    requires 0 < w <= 26 && OnBoard(p, h, w)
    ensures Letters(PointToString(p, w)) == [ColumnLetter(p, w)]
  {
    PointText(p, w);
    var ns := Stride(w);
    SplitPoint(p, ns);
    var letter := ((64 + p % ns) % 256) as char;
    assert Rem(p, ns) == p % ns;
    LettersAppend([letter], NatToString(p / ns));
    DigitsHaveNoLetters(NatToString(p / ns));
    assert Letters([letter]) == Letters([]) + [letter] by {
      assert [letter][..0] == [];
      assert !IsDigit(letter);
    }
  }

  /** A legal move is an empty on-board point. */
  lemma LegalMoveOnBoard(cells: seq<int>, h: int, w: int, p: int, color: int)
    requires WellFormed(h, w, cells) && IsLegalMove(cells, Stride(w), p, color)
    ensures OnBoard(p, h, w) && 0 <= p < |cells| && cells[p] == EMPTY
  {
  }
}
