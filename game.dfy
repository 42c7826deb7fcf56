/**
 * The game the solver decides, stated independently of the search: NoGo on a cell
 * vector, where the player to move loses exactly when every legal move hands the
 * opponent a winning position (in particular, with no legal move at all).
 *
 * The solver's table does not record whose turn it is. Positions reached by
 * alternate play from the empty board with BLACK to move have BLACK to move exactly
 * when an even number of stones is down; ToMove names that player.
 */
module Game {
  import opened BoardUtil
  import opened Board

  /** The player to move on a board of h x w points reached by alternate play from the start. */
  function ToMove(h: int, w: int, cells: seq<int>): (color: int)
    ensures color == BLACK || color == WHITE
  {
    if (h * w - CountOf(cells, EMPTY)) % 2 == 0 then BLACK else WHITE
  }

  /** Filling an empty cell hands the turn to the other player and leaves one empty cell fewer. */
  lemma PlaceStone(h: int, w: int, cells: seq<int>, p: int, color: int)
    requires 0 <= p < |cells| && cells[p] == EMPTY && (color == BLACK || color == WHITE)
    ensures CountOf(cells[p := color], EMPTY) == CountOf(cells, EMPTY) - 1
    ensures ToMove(h, w, cells[p := color]) == Opponent(ToMove(h, w, cells))
  {
    CountOfUpdate(cells, p, color, EMPTY);
  }

  /** Taking a stone off hands the turn back to the player who placed it. */
  lemma LiftStone(h: int, w: int, cells: seq<int>, p: int)
    requires 0 <= p < |cells| && (cells[p] == BLACK || cells[p] == WHITE)
    ensures ToMove(h, w, cells[p := EMPTY]) == Opponent(ToMove(h, w, cells))
  {
    var lifted := cells[p := EMPTY];
    PlaceStone(h, w, lifted, p, cells[p]);
    assert lifted[p := cells[p]] == cells;
  }

  /** The number of on-board points of an h x w board before row r, column c. */
  function OnBoardBefore(r: int, c: int, h: int, w: int): int
  {
    if r <= 0 then 0 else if r > h then h * w else (r - 1) * w + (if c == 0 then 0 else c - 1)
  }

  /** One more cell of the prefix adds one to the count exactly when it is EMPTY. */
  lemma CountOfPrefixStep(cells: seq<int>, m: int, v: int)
    requires 0 <= m < |cells|
    ensures CountOf(cells[..m + 1], v) == CountOf(cells[..m], v) + (if cells[m] == v then 1 else 0)
  {
    assert cells[..m + 1][..m] == cells[..m];
  }

  /** On a reset board the empty cells before row r, column c are the on-board points there. */
  lemma {:induction false} FreshCountBefore(h: int, w: int, cells: seq<int>, r: int, c: int)
    requires h >= 0 && w >= 0 && r >= 0 && 0 <= c < Stride(w) && r * Stride(w) + c <= |cells|
    requires forall q :: 0 <= q < |cells| ==> cells[q] == (if OnBoard(q, h, w) then EMPTY else BORDER)
    ensures CountOf(cells[..r * Stride(w) + c], EMPTY) == OnBoardBefore(r, c, h, w)
    decreases r, c
  {
    var ns := Stride(w);
    if r == 0 && c == 0 {
      return;
    }
    var m, pr, pc := r * ns + c - 1, r, c - 1;
    if c == 0 {
      pr, pc := r - 1, w;
    }
    assert m == pr * ns + pc;
    FreshCountBefore(h, w, cells, pr, pc);
    DivModOf(pr, pc, ns);
    assert OnBoard(m, h, w) == (1 <= pr <= h && 1 <= pc <= w);
    assert cells[m] == (if OnBoard(m, h, w) then EMPTY else BORDER);
    CountOfPrefixStep(cells, m, EMPTY);
    BeforeStep(h, w, r, c);
  }

  /** Counting one more cell, row-major, adds one exactly at an on-board point. */
  lemma BeforeStep(h: int, w: int, r: int, c: int)
    requires h >= 0 && w >= 0 && r >= 0 && 0 <= c <= w && (r > 0 || c > 0)
    ensures c > 0 ==> (OnBoardBefore(r, c, h, w)
      == OnBoardBefore(r, c - 1, h, w) + (if 1 <= r <= h && 1 <= c - 1 <= w then 1 else 0))
    ensures c == 0 ==> (OnBoardBefore(r, 0, h, w)
      == OnBoardBefore(r - 1, w, h, w) + (if 1 <= r - 1 <= h && 1 <= w then 1 else 0))
  {
    if c == 0 && 2 <= r <= h + 1 {
      assert (r - 2) * w + w == (r - 1) * w;
    }
  }

  /** A reset board has every on-board point empty, so BLACK is to move. */
  lemma FreshToMove(h: int, w: int, cells: seq<int>)
    requires h >= 0 && w >= 0 && |cells| == MaxPoint(h, w)
    requires forall q :: 0 <= q < |cells| ==> cells[q] == (if OnBoard(q, h, w) then EMPTY else BORDER)
    ensures CountOf(cells, EMPTY) == h * w
    ensures ToMove(h, w, cells) == BLACK
  {
    assert cells[..|cells|] == cells;
    if w == 0 {
      assert |cells| == (h + 3) * Stride(w) + 0;
      FreshCountBefore(h, w, cells, h + 3, 0);
    } else {
      assert |cells| == (h + 2) * Stride(w) + 1;
      FreshCountBefore(h, w, cells, h + 2, 1);
    }
  }

  /** Placing a stone on an empty point of a well-formed board leaves it well formed. */
  lemma PlaceWellFormed(h: int, w: int, cells: seq<int>, p: int, color: int)
    requires WellFormed(h, w, cells) && 0 <= p < |cells| && cells[p] == EMPTY
    requires color == BLACK || color == WHITE
    ensures WellFormed(h, w, cells[p := color])
  {
    var c := cells[p := color];
    forall q | 0 <= q < |c| ensures (c[q] == BORDER <==> !OnBoard(q, h, w)) {
      if q != p {
        assert c[q] == cells[q];
      }
    }
  }

  /** The moves the player to move has: the legal points, in increasing order. */
  lemma LegalMovesEmpty(cells: seq<int>, ns: int, color: int)
    ensures forall m :: m in LegalMoves(cells, ns, color) ==> 0 <= m < |cells| && cells[m] == EMPTY
    ensures OnEmpty(cells, LegalMoves(cells, ns, color))
  {
    LegalMovesSpec(cells, ns, color);
    var moves := LegalMoves(cells, ns, color);
    forall k | 0 <= k < |moves| ensures 0 <= moves[k] < |cells| && cells[moves[k]] == EMPTY {
      assert moves[k] in moves;
    }
  }

  /**
   * The value of a position for the player `color` to move: 1 if some legal move
   * leads to a position of value 0 for the opponent, 0 otherwise.
   */
  ghost function Value(cells: seq<int>, ns: int, color: int): (v: int)
    requires color == BLACK || color == WHITE
    ensures v == 0 || v == 1
    decreases CountOf(cells, EMPTY), 1
  {
    LegalMovesEmpty(cells, ns, color);
    if WinsAmong(cells, ns, color, LegalMoves(cells, ns, color)) then 1 else 0
  }

  /** Every point of `moves` is an empty cell. */
  predicate OnEmpty(cells: seq<int>, moves: seq<int>)
  {
    forall k :: 0 <= k < |moves| ==> 0 <= moves[k] < |cells| && cells[moves[k]] == EMPTY
  }

  /** Some move of `moves` leads to a position of value 0 for the opponent. */
  ghost predicate WinsAmong(cells: seq<int>, ns: int, color: int, moves: seq<int>)
    requires color == BLACK || color == WHITE
    requires OnEmpty(cells, moves)
    decreases CountOf(cells, EMPTY), 0, |moves|
  {
    if moves == [] then false
    else
      CountOfUpdate(cells, moves[0], color, EMPTY);
      Value(cells[moves[0] := color], ns, Opponent(color)) == 0
      || WinsAmong(cells, ns, color, moves[1..])
  }

  lemma {:induction false} WinsAmongIff(cells: seq<int>, ns: int, color: int, moves: seq<int>)
    requires color == BLACK || color == WHITE
    requires OnEmpty(cells, moves)
    ensures WinsAmong(cells, ns, color, moves) <==>
      exists m :: m in moves && Value(cells[m := color], ns, Opponent(color)) == 0
    decreases |moves|
  {
    if moves != [] {
      var head, tail := moves[0], moves[1..];
      assert OnEmpty(cells, tail) by {
        forall k | 0 <= k < |tail| ensures 0 <= tail[k] < |cells| && cells[tail[k]] == EMPTY {
          assert tail[k] == moves[k + 1];
        }
      }
      WinsAmongIff(cells, ns, color, tail);
      assert WinsAmong(cells, ns, color, moves) ==
        (Value(cells[head := color], ns, Opponent(color)) == 0 || WinsAmong(cells, ns, color, tail));
      if exists m :: m in moves && Value(cells[m := color], ns, Opponent(color)) == 0 {
        var m :| m in moves && Value(cells[m := color], ns, Opponent(color)) == 0;
        if m != head {
          assert m in tail;
        }
      }
      assert head in moves;
      if WinsAmong(cells, ns, color, moves) && Value(cells[head := color], ns, Opponent(color)) != 0 {
        var m :| m in tail && Value(cells[m := color], ns, Opponent(color)) == 0;
        assert m in moves;
      }
    }
  }

  /**
   * The defining property of the value: 1 exactly when a legal move leaves the
   * opponent a position of value 0; so 0 exactly when every legal move leaves the
   * opponent a win, and 0 when there is no legal move.
   */
  lemma ValueIff(cells: seq<int>, ns: int, color: int)
    requires color == BLACK || color == WHITE
    ensures forall m :: m in LegalMoves(cells, ns, color) ==> 0 <= m < |cells| && cells[m] == EMPTY
    ensures Value(cells, ns, color) == 1 <==>
      exists m :: m in LegalMoves(cells, ns, color) && Value(cells[m := color], ns, Opponent(color)) == 0
    ensures LegalMoves(cells, ns, color) == [] ==> Value(cells, ns, color) == 0
  {
    LegalMovesEmpty(cells, ns, color);
    WinsAmongIff(cells, ns, color, LegalMoves(cells, ns, color));
  }
}
