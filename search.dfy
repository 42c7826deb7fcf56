/**
 * class Search (search.hpp:11-41, search.cpp): the exact solver. negamax computes
 * the value of the position on the board, memoising every decided position in the
 * transposition table (the global `hash` of the source, passed here as `hs`);
 * proof_negamax re-checks the values the table holds and marks the checked ones.
 * The history table orders the moves; enhanced transposition cut-off (h_etc) looks
 * for a child the table already knows to be lost.
 *
 * The table does not record whose turn it is, and two positions can only be told
 * apart by their key when the board has at most 25 points (Fingerprint). The search
 * is proved for such boards, for positions reached by alternate play (Game.ToMove).
 */
module Search {
  import opened BoardUtil
  import opened Board
  import opened Game
  import opened Entry
  import opened Table
  import opened Fingerprint
  import opened HashTable
  import BucketUtil

  // ---------------------------------------------------------------------------
  // What the table claims

  /** The table key of a position: the mixed fingerprint (linear_congruence_func of hash_func). */
  function Key(h: int, w: int, cells: seq<int>): (key: nat)
    requires h >= 0 && w >= 0 && |cells| == MaxPoint(h, w)
    ensures key < LCG_M
  {
    Lcg(FullHash(h, w, cells))
  }

  /** The entry under `hc` is the one for position `c`, and holds its value. */
  ghost predicate Records(t: Buckets, h: int, w: int, hc: nat, c: seq<int>)
    requires Shaped(t)
  {
    && WellFormed(h, w, c) && Key(h, w, c) == hc && Lookup(t, hc).Some?
    && ValueBit(Lookup(t, hc).value) == Value(c, Stride(w), ToMove(h, w, c))
  }

  /** Every entry of the table is the key of a position and holds that position's value. */
  ghost predicate Sound(t: Buckets, h: int, w: int)
  {
    Shaped(t) && forall hc: nat :: Lookup(t, hc).Some? ==> exists c :: Records(t, h, w, hc, c)
  }

  /** Every entry whose proof flag is set is the key of a position and holds that position's value. */
  ghost predicate ProofSound(t: Buckets, h: int, w: int)
  {
    Shaped(t) && forall hc: nat :: Lookup(t, hc).Some? && ProofBit(Lookup(t, hc).value) ==>
      exists c :: Records(t, h, w, hc, c)
  }

  /** Every key t1 holds and t0 does not is the key of a position with at most e empty points. */
  ghost predicate NewWithin(t0: Buckets, t1: Buckets, h: int, w: int, e: int)
  {
    Shaped(t0) && Shaped(t1) &&
    forall hc: nat :: Lookup(t0, hc).None? && Lookup(t1, hc).Some? ==>
      exists c :: WellFormed(h, w, c) && Key(h, w, c) == hc && CountOf(c, EMPTY) <= e
  }

  /** t1 holds the same keys with the same values as t0; only proof flags may differ. */
  ghost predicate SameValues(t0: Buckets, t1: Buckets)
  {
    Shaped(t0) && Shaped(t1) &&
    forall hc: nat :: (Lookup(t0, hc).Some? <==> Lookup(t1, hc).Some?) &&
      (Lookup(t0, hc).Some? ==> ValueBit(Lookup(t1, hc).value) == ValueBit(Lookup(t0, hc).value))
  }

  /** A board small enough that the key identifies the position. */
  predicate Small(h: int, w: int)
  {
    h >= 1 && w >= 1 && h * w <= 25
  }

  /** On a small board a sound table answers a lookup with the true value of the position. */
  lemma SoundLookup(t: Buckets, h: int, w: int, c: seq<int>)
    requires Sound(t, h, w) && Small(h, w) && WellFormed(h, w, c) && Lookup(t, Key(h, w, c)).Some?
    ensures ValueBit(Lookup(t, Key(h, w, c)).value) == Value(c, Stride(w), ToMove(h, w, c))
  {
    var c2 :| Records(t, h, w, Key(h, w, c), c2);
    KeyIdentifiesPosition(h, w, c, c2);
  }

  /** On a small board a proof-sound table answers a proved lookup with the true value. */
  lemma ProvedLookup(t: Buckets, h: int, w: int, c: seq<int>)
    requires ProofSound(t, h, w) && Small(h, w) && WellFormed(h, w, c)
    requires Lookup(t, Key(h, w, c)).Some? && ProofBit(Lookup(t, Key(h, w, c)).value)
    ensures ValueBit(Lookup(t, Key(h, w, c)).value) == Value(c, Stride(w), ToMove(h, w, c))
  {
    var c2 :| Records(t, h, w, Key(h, w, c), c2);
    KeyIdentifiesPosition(h, w, c, c2);
  }

  /** Recording the true value of a position keeps a sound table sound. */
  lemma SoundInsert(t0: Buckets, t1: Buckets, h: int, w: int, c: seq<int>)
    requires Sound(t0, h, w) && Shaped(t1) && WellFormed(h, w, c)
    requires Lookup(t1, Key(h, w, c)).Some?
    requires ValueBit(Lookup(t1, Key(h, w, c)).value) == Value(c, Stride(w), ToMove(h, w, c))
    requires forall hc: nat :: hc != Key(h, w, c) ==> Lookup(t1, hc) == Lookup(t0, hc)
    ensures Sound(t1, h, w)
  {
    forall hc: nat | Lookup(t1, hc).Some? ensures exists c' :: Records(t1, h, w, hc, c') {
      if hc == Key(h, w, c) {
        assert Records(t1, h, w, hc, c);
      } else {
        var c' :| Records(t0, h, w, hc, c');
        assert Records(t1, h, w, hc, c');
      }
    }
  }

  /** Adding the key of a position with at most e empty points keeps NewWithin. */
  lemma WithinInsert(t0: Buckets, t1: Buckets, t2: Buckets, h: int, w: int, c: seq<int>, e: int)
    requires NewWithin(t0, t1, h, w, e) && Shaped(t2) && WellFormed(h, w, c) && CountOf(c, EMPTY) <= e
    requires forall hc: nat :: hc != Key(h, w, c) ==> Lookup(t2, hc) == Lookup(t1, hc)
    ensures NewWithin(t0, t2, h, w, e)
  {
    forall hc: nat | Lookup(t0, hc).None? && Lookup(t2, hc).Some?
      ensures exists c' :: WellFormed(h, w, c') && Key(h, w, c') == hc && CountOf(c', EMPTY) <= e
    {
      if hc == Key(h, w, c) {
        assert WellFormed(h, w, c) && Key(h, w, c) == hc && CountOf(c, EMPTY) <= e;
      }
    }
  }

  lemma WithinTrans(t0: Buckets, t1: Buckets, t2: Buckets, h: int, w: int, e1: int, e2: int, e: int)
    requires NewWithin(t0, t1, h, w, e1) && NewWithin(t1, t2, h, w, e2) && e1 <= e && e2 <= e
    ensures NewWithin(t0, t2, h, w, e)
  {
    forall hc: nat | Lookup(t0, hc).None? && Lookup(t2, hc).Some?
      ensures exists c' :: WellFormed(h, w, c') && Key(h, w, c') == hc && CountOf(c', EMPTY) <= e
    {
      if Lookup(t1, hc).Some? {
        var c' :| WellFormed(h, w, c') && Key(h, w, c') == hc && CountOf(c', EMPTY) <= e1;
      } else {
        var c' :| WellFormed(h, w, c') && Key(h, w, c') == hc && CountOf(c', EMPTY) <= e2;
      }
    }
  }

  /**
   * The searches below a position only add keys of positions with more stones, so
   * they never add the key of the position itself.
   */
  lemma KeyStillAbsent(t0: Buckets, t1: Buckets, h: int, w: int, c: seq<int>)
    requires Small(h, w) && WellFormed(h, w, c) && Shaped(t0) && Lookup(t0, Key(h, w, c)).None?
    requires NewWithin(t0, t1, h, w, CountOf(c, EMPTY) - 1)
    ensures Lookup(t1, Key(h, w, c)).None?
  {
    if Lookup(t1, Key(h, w, c)).Some? {
      var c' :| WellFormed(h, w, c') && Key(h, w, c') == Key(h, w, c) && CountOf(c', EMPTY) <= CountOf(c, EMPTY) - 1;
      KeyIdentifiesPosition(h, w, c, c');
      assert false;
    }
  }

  /** 64-bit (n - 1 - depth)^2, the weight update_hhtable adds. */
  function Bonus(numPoints: int, depth: int): (b: nat)
    ensures b < U64
  {
    var base := (numPoints - 1 - depth) % U64;
    (base * base) % U64
  }

  /** The scores `row` with `bonus` added, in 64 bits, to the one at index k. */
  function Bumped(row: seq<nat>, k: int, bonus: nat): (r: seq<nat>)
    requires 0 <= k < |row|
  {
    row[k := (row[k] + bonus) % U64]
  }

  /** Within the depths a search reaches, the weight is the exact square. */
  lemma BonusExact(numPoints: int, depth: int)
    requires 0 <= depth < numPoints <= 0x1_0000_0000
    ensures Bonus(numPoints, depth) == (numPoints - 1 - depth) * (numPoints - 1 - depth)
  {
    var x := numPoints - 1 - depth;
    var y := 0xFFFF_FFFF;
    assert 0 <= x <= y;
    assert x % U64 == x;
    MulMono(x, x, y);
    MulMono(y, x, y);
    assert x * x <= y * y;
    assert y * y < U64;
  }

  // ---------------------------------------------------------------------------
  // The solver

  class Search {
    var height: int                 // m_boardsize[0]
    var width: int                  // m_boardsize[1]
    var numPoints: int
    /** m_hhtable: one score per canonical point for each side. */
    var hhtable: seq<seq<nat>>

    ghost predicate Valid()
      reads this
    {
      height >= 1 && width >= 1 && numPoints == height * width
      && |hhtable| == 2 && |hhtable[0]| == numPoints && |hhtable[1]| == numPoints
    }

    constructor (h: int, w: int)
      requires h >= 1 && w >= 1
      ensures Valid() && height == h && width == w
      ensures forall s, k :: 0 <= s < 2 && 0 <= k < h * w ==> hhtable[s][k] == 0
    {
      new;
      Initialize(h, w);
    }

    /** initialize: record the board size and zero both rows of the history table. */
    method Initialize(h: int, w: int)
      requires h >= 1 && w >= 1
      modifies this
      ensures Valid() && height == h && width == w
      ensures forall s, k :: 0 <= s < 2 && 0 <= k < h * w ==> hhtable[s][k] == 0
    {
      height, width := h, w;
      numPoints := h * w;
      var row := seq(numPoints, _ => 0);
      hhtable := [row, row];
    }

    /** The history score of `point` for `side2move`. */
    function Score(side2move: int, point: int): nat
      reads this
      requires Valid() && (side2move == BLACK || side2move == WHITE) && OnBoard(point, height, width)
    {
      CanonicalRoundTrip(point, height, width);
      hhtable[side2move - 1][PointToCanonical(point, width)]
    }

    /**
     * h_history_heuristic: the index of the first move of highest score, or 0 when
     * no move scores above 0.
     */
    method HHistoryHeuristic(side2move: int, legalMoves: seq<int>) returns (best: int)
      requires Valid() && (side2move == BLACK || side2move == WHITE)
      requires forall k :: 0 <= k < |legalMoves| ==> OnBoard(legalMoves[k], height, width)
      ensures 0 <= best && (|legalMoves| > 0 ==> best < |legalMoves|)
      ensures |legalMoves| > 0 ==> forall k :: 0 <= k < |legalMoves| ==>
        Score(side2move, legalMoves[k]) <= Score(side2move, legalMoves[best])
      ensures |legalMoves| > 0 ==> forall k :: 0 <= k < best ==>
        Score(side2move, legalMoves[k]) < Score(side2move, legalMoves[best])
      ensures |legalMoves| == 0 ==> best == 0
    {
      best := 0;
      var bestValue := 0;
      for i := 0 to |legalMoves|
        invariant 0 <= best && (i > 0 ==> best < i) && (i == 0 ==> best == 0 && bestValue == 0)
        invariant i > 0 ==> bestValue == Score(side2move, legalMoves[best])
        invariant forall k :: 0 <= k < i ==> Score(side2move, legalMoves[k]) <= bestValue
        invariant forall k :: 0 <= k < best ==> Score(side2move, legalMoves[k]) < bestValue
        invariant i > 0 && best == 0 ==> bestValue == Score(side2move, legalMoves[0])
      {
        var value := Score(side2move, legalMoves[i]);
        if value > bestValue {
          bestValue := value;
          best := i;
        }
      }
    }

    /** update_hhtable: add (numPoints - 1 - depth)^2, in 64 bits, to one score of one side. */
    method UpdateHHTable(side2move: int, point: int, depth: int)
      requires Valid() && (side2move == BLACK || side2move == WHITE) && OnBoard(point, height, width)
      modifies this`hhtable
      ensures Valid()
      ensures var s, k := side2move - 1, PointToCanonical(point, width);
        0 <= k < numPoints && hhtable == old(hhtable)[s := Bumped(old(hhtable)[s], k, Bonus(numPoints, depth))]
    {
      var bonus := (numPoints - 1 - depth) % U64;
      bonus := (bonus * bonus) % U64;
      CanonicalRoundTrip(point, height, width);
      var canonicalPoint := PointToCanonical(point, width);
      var row := hhtable[side2move - 1];
      hhtable := hhtable[side2move - 1 := Bumped(row, canonicalPoint, bonus)];
    }

    /**
     * negamax: 1 if the player to move wins the position on the board, 0 if not.
     * A position the table knows is answered from it; otherwise the position is
     * decided (no move: lost; a move to a position the table knows to be lost:
     * won; else each move in history order until one wins) and its value recorded.
     */
    method Negamax(board: NoGoBoard, hs: Hash, hashcode: nat, d: int) returns (value: int)
      requires Valid() && board.Valid() && hs.Valid() && Small(board.height, board.width)
      requires board.height == hs.height == height && board.width == hs.width == width
      requires board.currentPlayer == ToMove(height, width, board.cells)
      requires hashcode == FullHash(height, width, board.cells)
      requires Sound(hs.table, height, width)
      modifies this`hhtable, board, hs
      decreases CountOf(board.cells, EMPTY), 3
      ensures Valid() && board.Valid() && hs.Valid()
      ensures board.height == old(board.height) && board.width == old(board.width)
      ensures board.ns == old(board.ns) && board.maxpoint == old(board.maxpoint)
      ensures hs.height == old(hs.height) && hs.width == old(hs.width)
      ensures board.cells == old(board.cells) && board.currentPlayer == old(board.currentPlayer)
      ensures Sound(hs.table, height, width)
      ensures NewWithin(old(hs.table), hs.table, height, width, CountOf(board.cells, EMPTY))
      ensures value == Value(board.cells, Stride(width), board.currentPlayer)
      ensures hs.Get(Key(height, width, board.cells)) == value
      ensures old(hs.Get(Key(height, width, board.cells))) != -1 ==>
        hs.table == old(hs.table) && hs.size == old(hs.size) && hhtable == old(hhtable)
    {
      var trueHashcode := Lcg(hashcode);
      value := hs.Get(trueHashcode);
      if value != -1 {
        SoundLookup(hs.table, height, width, board.cells);
        return;
      }
      value := Expand(board, hs, hashcode, d);
    }

    /** The rest of negamax for a position the table does not know: decide it and record its value. */
    method Expand(board: NoGoBoard, hs: Hash, hashcode: nat, d: int) returns (value: int)
      requires Valid() && board.Valid() && hs.Valid() && Small(board.height, board.width)
      requires board.height == hs.height == height && board.width == hs.width == width
      requires board.currentPlayer == ToMove(height, width, board.cells)
      requires hashcode == FullHash(height, width, board.cells)
      requires Sound(hs.table, height, width)
      requires hs.Get(Key(height, width, board.cells)) == -1
      modifies this`hhtable, board, hs
      decreases CountOf(board.cells, EMPTY), 2
      ensures Valid() && board.Valid() && hs.Valid()
      ensures board.height == old(board.height) && board.width == old(board.width)
      ensures board.ns == old(board.ns) && board.maxpoint == old(board.maxpoint)
      ensures hs.height == old(hs.height) && hs.width == old(hs.width)
      ensures board.cells == old(board.cells) && board.currentPlayer == old(board.currentPlayer)
      ensures Sound(hs.table, height, width)
      ensures NewWithin(old(hs.table), hs.table, height, width, CountOf(board.cells, EMPTY))
      ensures value == Value(board.cells, Stride(width), board.currentPlayer)
      ensures hs.Get(Key(height, width, board.cells)) == value
    {
      var trueHashcode := Lcg(hashcode);
      var player := board.currentPlayer;
      var validMoves := board.GenerateLegalMoves(player);
      ghost var cells, ns, t0 := board.cells, board.ns, hs.table;
      if |validMoves| == 0 {
        ValueIff(cells, ns, player);
        Record(hs, t0, cells, trueHashcode, 0);
        return 0;
      }
      LegalOnBoard(board, player, validMoves);
      var idx := HEtc(hs, hashcode, validMoves, player);
      if idx != -1 {
        EtcWins(hs, cells, validMoves[idx], player);
        Record(hs, t0, cells, trueHashcode, 1);
        UpdateHHTable(player, validMoves[idx], d);
        return 1;
      }
      var move;
      value, move := TryMoves(board, hs, hashcode, validMoves, d);
      KeyStillAbsent(t0, hs.table, height, width, cells);
      WithinWeaken(t0, hs.table, height, width, CountOf(cells, EMPTY) - 1, CountOf(cells, EMPTY));
      Record(hs, t0, cells, trueHashcode, value);
      if value == 1 {
        UpdateHHTable(player, move, d);
      }
    }

    /**
     * The move loop of negamax: try the moves, best history score first, until one
     * wins (value 1, and that move) or none is left (value 0).
     */
    method TryMoves(board: NoGoBoard, hs: Hash, hashcode: nat, legalMoves: seq<int>, d: int)
      returns (value: int, move: int)
      requires Valid() && board.Valid() && hs.Valid() && Small(board.height, board.width)
      requires board.height == hs.height == height && board.width == hs.width == width
      requires board.currentPlayer == ToMove(height, width, board.cells)
      requires hashcode == FullHash(height, width, board.cells)
      requires Sound(hs.table, height, width)
      requires legalMoves == LegalMoves(board.cells, board.ns, board.currentPlayer)
      modifies this`hhtable, board, hs
      decreases CountOf(board.cells, EMPTY), 1
      ensures Valid() && board.Valid() && hs.Valid()
      ensures board.height == old(board.height) && board.width == old(board.width)
      ensures board.ns == old(board.ns) && board.maxpoint == old(board.maxpoint)
      ensures hs.height == old(hs.height) && hs.width == old(hs.width)
      ensures board.cells == old(board.cells) && board.currentPlayer == old(board.currentPlayer)
      ensures Sound(hs.table, height, width)
      ensures NewWithin(old(hs.table), hs.table, height, width, CountOf(board.cells, EMPTY) - 1)
      ensures value == Value(board.cells, Stride(width), board.currentPlayer)
      ensures value == 1 ==> OnBoard(move, height, width)
    {
      var player := board.currentPlayer;
      ghost var cells, ns, t0 := board.cells, board.ns, hs.table;
      ValueIff(cells, ns, player);
      var validMoves := legalMoves;
      var n := |validMoves|;
      for i := 0 to n
        invariant Valid() && board.Valid() && hs.Valid()
        invariant board.height == height && board.width == width && board.ns == ns
        invariant board.maxpoint == old(board.maxpoint)
        invariant hs.height == height && hs.width == width
        invariant board.cells == cells && board.currentPlayer == player
        invariant Sound(hs.table, height, width)
        invariant NewWithin(t0, hs.table, height, width, CountOf(cells, EMPTY) - 1)
        invariant |validMoves| == n - i
        invariant forall k :: 0 <= k < |validMoves| ==> validMoves[k] in LegalMoves(cells, ns, player)
        invariant forall m :: m in LegalMoves(cells, ns, player) && m !in validMoves ==>
          0 <= m < |cells| && Value(cells[m := player], ns, Opponent(player)) == 1
      {
        LegalOnBoard(board, player, validMoves);
        var idx := HHistoryHeuristic(player, validMoves);
        move := validMoves[idx];
        ghost var t1 := hs.table;
        value := TryMove(board, hs, hashcode, move, d);
        WithinTrans(t0, t1, hs.table, height, width, CountOf(cells, EMPTY) - 1, CountOf(cells, EMPTY) - 1,
          CountOf(cells, EMPTY) - 1);
        if value == 1 {
          return;
        }
        RemoveTried(validMoves, idx, cells, ns, player);
        validMoves := validMoves[..idx] + validMoves[idx + 1..];
      }
      return 0, 0;
    }

    /**
     * proof_negamax, with the two corrections of README's Findings: absence is tested
     * before the proof flag is read, and a flag is set only on an entry whose value
     * has just been verified. It checks the value the table holds for the position on
     * the board: `proved` when that value is confirmed by the proved values of the
     * children (or the entry was already proved); `value` is the confirmed value.
     */
    method ProofNegamax(board: NoGoBoard, hs: Hash, hashcode: nat) returns (value: bool, proved: bool)
      requires Valid() && board.Valid() && hs.Valid() && Small(board.height, board.width)
      requires board.height == hs.height == height && board.width == hs.width == width
      requires board.currentPlayer == ToMove(height, width, board.cells)
      requires hashcode == FullHash(height, width, board.cells)
      requires ProofSound(hs.table, height, width)
      modifies board, hs
      decreases CountOf(board.cells, EMPTY), 2
      ensures board.Valid() && hs.Valid()
      ensures board.height == old(board.height) && board.width == old(board.width)
      ensures board.ns == old(board.ns) && board.maxpoint == old(board.maxpoint)
      ensures hs.height == old(hs.height) && hs.width == old(hs.width)
      ensures board.cells == old(board.cells) && board.currentPlayer == old(board.currentPlayer)
      ensures ProofSound(hs.table, height, width) && SameValues(old(hs.table), hs.table)
      ensures Lookup(old(hs.table), Key(height, width, board.cells)).None? ==>
        !value && !proved && hs.table == old(hs.table)
      ensures proved ==> Lookup(hs.table, Key(height, width, board.cells)).Some?
      ensures proved ==> var e := Lookup(hs.table, Key(height, width, board.cells)).value;
        ProofBit(e) && ValueBit(e) == (if value then 1 else 0) == Value(board.cells, Stride(width), board.currentPlayer)
      ensures value <==> old(TableWin(hs, hashcode, board.cells, board.ns, board.currentPlayer))
    {
      var trueHashcode := Lcg(hashcode);
      var predicted := hs.Get(trueHashcode);
      if predicted == -1 {
        return false, false;
      }
      proved := hs.GetProofBit(trueHashcode);
      if proved {
        ProvedLookup(hs.table, height, width, board.cells);
        return predicted == 1, true;
      }
      var player := board.currentPlayer;
      var validMoves := board.GenerateLegalMoves(player);
      ghost var cells, ns, t0 := board.cells, board.ns, hs.table;
      if |validMoves| == 0 {
        ValueIff(cells, ns, player);
        if predicted == 0 {
          MarkProved(hs, t0, cells, trueHashcode);
          return false, true;
        }
        return false, false;
      }
      LegalOnBoard(board, player, validMoves);
      if predicted == 1 {
        value, proved := ProveWin(board, hs, hashcode, validMoves);
        return;
      }
      proved := ProveLoss(board, hs, hashcode, validMoves, predicted);
      if proved {
        ValueIff(cells, ns, player);
        MarkProved(hs, t0, cells, trueHashcode);
      }
      return false, proved;
    }

    /**
     * The win branch of proof_negamax, for an unproved entry of value 1: the move
     * h_etc finds (to a child the table holds as lost) must lead to a proved child
     * of value 0; then the entry is flagged.
     */
    method ProveWin(board: NoGoBoard, hs: Hash, hashcode: nat, legalMoves: seq<int>) returns (found: bool, proved: bool)
      requires Valid() && board.Valid() && hs.Valid() && Small(board.height, board.width)
      requires board.height == hs.height == height && board.width == hs.width == width
      requires board.currentPlayer == ToMove(height, width, board.cells)
      requires hashcode == FullHash(height, width, board.cells)
      requires ProofSound(hs.table, height, width)
      requires legalMoves == LegalMoves(board.cells, board.ns, board.currentPlayer)
      requires Lookup(hs.table, Key(height, width, board.cells)).Some?
      requires ValueBit(Lookup(hs.table, Key(height, width, board.cells)).value) == 1
      modifies board, hs
      decreases CountOf(board.cells, EMPTY), 1
      ensures board.Valid() && hs.Valid()
      ensures board.height == old(board.height) && board.width == old(board.width)
      ensures board.ns == old(board.ns) && board.maxpoint == old(board.maxpoint)
      ensures hs.height == old(hs.height) && hs.width == old(hs.width)
      ensures board.cells == old(board.cells) && board.currentPlayer == old(board.currentPlayer)
      ensures ProofSound(hs.table, height, width) && SameValues(old(hs.table), hs.table)
      ensures found == old(LostChildAmong(hs, hashcode, legalMoves, board.currentPlayer))
      ensures !found ==> !proved && hs.table == old(hs.table)
      ensures proved ==> Lookup(hs.table, Key(height, width, board.cells)).Some?
      ensures proved ==> var e := Lookup(hs.table, Key(height, width, board.cells)).value;
        ProofBit(e) && Value(board.cells, Stride(width), board.currentPlayer) == 1
    {
      var player := board.currentPlayer;
      ghost var cells, ns, t0 := board.cells, board.ns, hs.table;
      assert ns == Stride(width) && Key(height, width, cells) == Lcg(hashcode);
      LegalOnBoard(board, player, legalMoves);
      var i := HEtc(hs, hashcode, legalMoves, player);
      if i == -1 {
        return false, false;
      }
      found := true;
      var move := legalMoves[i];
      var childValue, childProved := ProofMove(board, hs, hashcode, move);
      var moveValue := 1 - (if childValue then 1 else 0);
      proved := childProved && moveValue == 1;
      if proved {
        WinByMove(cells, ns, player, move);
        MarkProved(hs, t0, cells, Lcg(hashcode));
      }
    }

    /** The loss loop of proof_negamax: every move, in order, must lead to a proved child of value 1 - predicted. */
    method ProveLoss(board: NoGoBoard, hs: Hash, hashcode: nat, legalMoves: seq<int>, predicted: int)
      returns (allProved: bool)
      requires Valid() && board.Valid() && hs.Valid() && Small(board.height, board.width)
      requires board.height == hs.height == height && board.width == hs.width == width
      requires board.currentPlayer == ToMove(height, width, board.cells)
      requires hashcode == FullHash(height, width, board.cells)
      requires ProofSound(hs.table, height, width)
      requires legalMoves == LegalMoves(board.cells, board.ns, board.currentPlayer)
      modifies board, hs
      decreases CountOf(board.cells, EMPTY), 1
      ensures board.Valid() && hs.Valid()
      ensures board.height == old(board.height) && board.width == old(board.width)
      ensures board.ns == old(board.ns) && board.maxpoint == old(board.maxpoint)
      ensures hs.height == old(hs.height) && hs.width == old(hs.width)
      ensures board.cells == old(board.cells) && board.currentPlayer == old(board.currentPlayer)
      ensures ProofSound(hs.table, height, width) && SameValues(old(hs.table), hs.table)
      ensures allProved ==> forall m :: m in legalMoves ==> (0 <= m < |board.cells| &&
        1 - Value(board.cells[m := board.currentPlayer], board.ns, Opponent(board.currentPlayer)) == predicted)
    {
      var player := board.currentPlayer;
      ghost var cells, ns, t0 := board.cells, board.ns, hs.table;
      LegalOnBoard(board, player, legalMoves);
      for i := 0 to |legalMoves|
        invariant board.Valid() && hs.Valid()
        invariant board.height == height && board.width == width && board.ns == ns
        invariant board.maxpoint == old(board.maxpoint)
        invariant hs.height == height && hs.width == width
        invariant board.cells == cells && board.currentPlayer == player
        invariant ProofSound(hs.table, height, width) && SameValues(t0, hs.table)
        invariant forall k :: 0 <= k < i ==>
          1 - Value(cells[legalMoves[k] := player], ns, Opponent(player)) == predicted
      {
        var move := legalMoves[i];
        ghost var t1 := hs.table;
        var childValue, childProved := ProofMove(board, hs, hashcode, move);
        SameValuesTrans(t0, t1, hs.table);
        var moveValue := 1 - (if childValue then 1 else 0);
        if !childProved || predicted != moveValue {
          return false;
        }
      }
      forall m | m in legalMoves
        ensures 0 <= m < |cells| && 1 - Value(cells[m := player], ns, Opponent(player)) == predicted
      {
        var k :| 0 <= k < |legalMoves| && legalMoves[k] == m;
      }
      return true;
    }

    /** Play `move`, check the child with proof_negamax, take the move back. */
    method ProofMove(board: NoGoBoard, hs: Hash, hashcode: nat, move: int) returns (childValue: bool, childProved: bool)
      requires Valid() && board.Valid() && hs.Valid() && Small(board.height, board.width)
      requires board.height == hs.height == height && board.width == hs.width == width
      requires board.currentPlayer == ToMove(height, width, board.cells)
      requires hashcode == FullHash(height, width, board.cells)
      requires ProofSound(hs.table, height, width)
      requires move in LegalMoves(board.cells, board.ns, board.currentPlayer) && 0 <= move < |board.cells|
      modifies board, hs
      decreases CountOf(board.cells, EMPTY), 0
      ensures board.Valid() && hs.Valid()
      ensures board.height == old(board.height) && board.width == old(board.width)
      ensures board.ns == old(board.ns) && board.maxpoint == old(board.maxpoint)
      ensures hs.height == old(hs.height) && hs.width == old(hs.width)
      ensures board.cells == old(board.cells) && board.currentPlayer == old(board.currentPlayer)
      ensures ProofSound(hs.table, height, width) && SameValues(old(hs.table), hs.table)
      ensures childProved ==> ((if childValue then 1 else 0) ==
        Value(board.cells[move := board.currentPlayer], board.ns, Opponent(board.currentPlayer)))
    {
      var player := board.currentPlayer;
      ghost var cells := board.cells;
      LegalMoveFacts(height, width, cells, move, player);
      var nextHashcode := hs.IncrementalHash(hashcode, move, player);
      IncrementalAgreesWithFull(hs, cells, move, player);
      var played := board.PlayMove(move, player, true);
      childValue, childProved := ProofNegamax(board, hs, nextHashcode);
      var undone := board.UndoMove(move);
      RestoreCell(cells, move, player);
    }

    /** Play `move` for the player to move, search the child, take the move back: 1 - the child's value. */
    method TryMove(board: NoGoBoard, hs: Hash, hashcode: nat, move: int, d: int) returns (value: int)
      requires Valid() && board.Valid() && hs.Valid() && Small(board.height, board.width)
      requires board.height == hs.height == height && board.width == hs.width == width
      requires board.currentPlayer == ToMove(height, width, board.cells)
      requires hashcode == FullHash(height, width, board.cells)
      requires Sound(hs.table, height, width)
      requires move in LegalMoves(board.cells, board.ns, board.currentPlayer) && 0 <= move < |board.cells|
      modifies this`hhtable, board, hs
      decreases CountOf(board.cells, EMPTY), 0
      ensures Valid() && board.Valid() && hs.Valid()
      ensures board.height == old(board.height) && board.width == old(board.width)
      ensures board.ns == old(board.ns) && board.maxpoint == old(board.maxpoint)
      ensures hs.height == old(hs.height) && hs.width == old(hs.width)
      ensures board.cells == old(board.cells) && board.currentPlayer == old(board.currentPlayer)
      ensures Sound(hs.table, height, width)
      ensures NewWithin(old(hs.table), hs.table, height, width, CountOf(board.cells, EMPTY) - 1)
      ensures value == 1 - Value(board.cells[move := board.currentPlayer], board.ns, Opponent(board.currentPlayer))
    {
      var player := board.currentPlayer;
      ghost var cells := board.cells;
      LegalMoveFacts(height, width, cells, move, player);
      var nextHashcode := hs.IncrementalHash(hashcode, move, player);
      IncrementalAgreesWithFull(hs, cells, move, player);
      var played := board.PlayMove(move, player, true);
      var child := Negamax(board, hs, nextHashcode, d + 1);
      value := 1 - child;
      var undone := board.UndoMove(move);
      RestoreCell(cells, move, player);
    }

    /**
     * h_etc: the index of the first move whose child the table knows to be lost
     * (value 0), or -1 when there is none. It changes nothing.
     */
    method HEtc(hs: Hash, hashcode: nat, legalMoves: seq<int>, color: int) returns (found: int)
      requires hs.Valid() && (color == BLACK || color == WHITE)
      requires forall k :: 0 <= k < |legalMoves| ==> OnBoard(legalMoves[k], hs.height, hs.width)
      ensures found == -1 ==> forall k :: 0 <= k < |legalMoves| ==> ChildGet(hs, hashcode, legalMoves[k], color) != 0
      ensures found != -1 ==> 0 <= found < |legalMoves| && ChildGet(hs, hashcode, legalMoves[found], color) == 0
      ensures found != -1 ==> forall k :: 0 <= k < found ==> ChildGet(hs, hashcode, legalMoves[k], color) != 0
    {
      for i := 0 to |legalMoves|
        invariant forall k :: 0 <= k < i ==> ChildGet(hs, hashcode, legalMoves[k], color) != 0
      {
        var newHashcode := hs.IncrementalHash(hashcode, legalMoves[i], color);
        var trueNewHashcode := Lcg(newHashcode);
        var value := hs.Get(trueNewHashcode);
        if value == 0 {
          return i;
        }
      }
      return -1;
    }
  }

  /**
   * What a legal move of the player to move gives the search: an empty on-board point
   * whose stone hands the turn over and leaves one empty point fewer.
   */
  lemma LegalMoveFacts(h: int, w: int, cells: seq<int>, move: int, player: int)
    requires WellFormed(h, w, cells) && (player == BLACK || player == WHITE)
    requires player == ToMove(h, w, cells)
    requires move in LegalMoves(cells, Stride(w), player)
    ensures 0 <= move < |cells| && OnBoard(move, h, w) && cells[move] == EMPTY
    ensures IsLegalMove(cells, Stride(w), move, player)
    ensures ToMove(h, w, cells[move := player]) == Opponent(player)
    ensures CountOf(cells[move := player], EMPTY) == CountOf(cells, EMPTY) - 1
  {
    LegalMovesSpec(cells, Stride(w), player);
    PlaceStone(h, w, cells, move, player);
  }

  /** Undoing a stone on a point that was empty gives back the cells as they were. */
  lemma RestoreCell(cells: seq<int>, p: int, v: int)
    requires 0 <= p < |cells| && cells[p] == EMPTY
    ensures cells[p := v][p := EMPTY] == cells
  {
  }

  /**
   * Record the value of a position the table does not hold: hash.insert on the
   * position's key, keeping the table sound.
   */
  method Record(hs: Hash, ghost t0: Buckets, ghost cells: seq<int>, trueHashcode: nat, value: int)
    requires hs.Valid() && Small(hs.height, hs.width) && WellFormed(hs.height, hs.width, cells)
    requires trueHashcode == Key(hs.height, hs.width, cells) && Lookup(hs.table, trueHashcode).None?
    requires value == Value(cells, Stride(hs.width), ToMove(hs.height, hs.width, cells))
    requires Sound(hs.table, hs.height, hs.width)
    requires NewWithin(t0, hs.table, hs.height, hs.width, CountOf(cells, EMPTY))
    modifies hs
    ensures hs.Valid() && hs.height == old(hs.height) && hs.width == old(hs.width)
    ensures Sound(hs.table, hs.height, hs.width)
    ensures NewWithin(t0, hs.table, hs.height, hs.width, CountOf(cells, EMPTY))
    ensures hs.Get(trueHashcode) == value
  {
    ghost var t1 := hs.table;
    hs.Insert(trueHashcode, value);
    SoundInsert(t1, hs.table, hs.height, hs.width, cells);
    WithinInsert(t0, t1, hs.table, hs.height, hs.width, cells, CountOf(cells, EMPTY));
  }

  lemma WithinWeaken(t0: Buckets, t1: Buckets, h: int, w: int, e1: int, e2: int)
    requires NewWithin(t0, t1, h, w, e1) && e1 <= e2
    ensures NewWithin(t0, t1, h, w, e2)
  {
    forall hc: nat | Lookup(t0, hc).None? && Lookup(t1, hc).Some?
      ensures exists c' :: WellFormed(h, w, c') && Key(h, w, c') == hc && CountOf(c', EMPTY) <= e2
    {
      var c' :| WellFormed(h, w, c') && Key(h, w, c') == hc && CountOf(c', EMPTY) <= e1;
    }
  }

  /**
   * hash.set_proof_bit on the key of a position whose entry holds its true value:
   * the table stays proof-sound and keeps its values.
   */
  method MarkProved(hs: Hash, ghost t0: Buckets, ghost cells: seq<int>, trueHashcode: nat)
    requires hs.Valid() && Small(hs.height, hs.width) && WellFormed(hs.height, hs.width, cells)
    requires trueHashcode == Key(hs.height, hs.width, cells) && Lookup(hs.table, trueHashcode).Some?
    requires ValueBit(Lookup(hs.table, trueHashcode).value) == Value(cells, Stride(hs.width), ToMove(hs.height, hs.width, cells))
    requires ProofSound(hs.table, hs.height, hs.width) && SameValues(t0, hs.table)
    modifies hs
    ensures hs.Valid() && hs.height == old(hs.height) && hs.width == old(hs.width)
    ensures ProofSound(hs.table, hs.height, hs.width) && SameValues(t0, hs.table)
    ensures Lookup(hs.table, trueHashcode).Some? && ProofBit(Lookup(hs.table, trueHashcode).value)
    ensures ValueBit(Lookup(hs.table, trueHashcode).value) == ValueBit(Lookup(old(hs.table), trueHashcode).value)
  {
    ghost var t1 := hs.table;
    var changed := hs.SetProofBit(trueHashcode);
    ProofSoundSet(t1, hs.table, hs.height, hs.width, cells);
    SameValuesTrans(t0, t1, hs.table);
  }

  /** Flagging an entry that holds the true value of its position keeps a table proof-sound. */
  lemma ProofSoundSet(t0: Buckets, t1: Buckets, h: int, w: int, c: seq<int>)
    requires ProofSound(t0, h, w) && Shaped(t1) && WellFormed(h, w, c)
    requires Lookup(t1, Key(h, w, c)).Some?
    requires ValueBit(Lookup(t1, Key(h, w, c)).value) == Value(c, Stride(w), ToMove(h, w, c))
    requires forall hc: nat :: hc != Key(h, w, c) ==> Lookup(t1, hc) == Lookup(t0, hc)
    ensures ProofSound(t1, h, w)
  {
    forall hc: nat | Lookup(t1, hc).Some? && ProofBit(Lookup(t1, hc).value)
      ensures exists c' :: Records(t1, h, w, hc, c')
    {
      if hc == Key(h, w, c) {
        assert Records(t1, h, w, hc, c);
      } else {
        var c' :| Records(t0, h, w, hc, c');
        assert Records(t1, h, w, hc, c');
      }
    }
  }

  /** Changing only proof flags keeps a sound table sound. */
  lemma SoundSameValues(t0: Buckets, t1: Buckets, h: int, w: int)
    requires Sound(t0, h, w) && SameValues(t0, t1)
    ensures Sound(t1, h, w)
  {
    forall hc: nat | Lookup(t1, hc).Some? ensures exists c :: Records(t1, h, w, hc, c) {
      var c :| Records(t0, h, w, hc, c);
      assert Records(t1, h, w, hc, c);
    }
  }

  lemma SameValuesTrans(t0: Buckets, t1: Buckets, t2: Buckets)
    requires SameValues(t0, t1) && SameValues(t1, t2)
    ensures SameValues(t0, t2)
  {
  }

  /** Some move of `moves` leads to a child the table holds as lost: what h_etc looks for. */
  ghost predicate LostChildAmong(hs: Hash, hashcode: nat, moves: seq<int>, color: int)
    reads hs
    requires hs.Valid()
  {
    exists k :: 0 <= k < |moves| && OnBoard(moves[k], hs.height, hs.width) && ChildGet(hs, hashcode, moves[k], color) == 0
  }

  /**
   * What proof_negamax answers as a win for `color` to move on `cells`: the table
   * holds the position as won, and either the entry is already proved or h_etc
   * finds a legal move to a child the table holds as lost.
   */
  ghost predicate TableWin(hs: Hash, hashcode: nat, cells: seq<int>, ns: int, color: int)
    reads hs
    requires hs.Valid() && |cells| == MaxPoint(hs.height, hs.width)
  {
    var e := Lookup(hs.table, Key(hs.height, hs.width, cells));
    e.Some? && ValueBit(e.value) == 1 &&
    (ProofBit(e.value) || LostChildAmong(hs, hashcode, LegalMoves(cells, ns, color), color))
  }

  /** The table's answer for the child reached by playing `move` for `color`. */
  function ChildGet(hs: Hash, hashcode: nat, move: int, color: int): int
    reads hs
    requires hs.Valid() && OnBoard(move, hs.height, hs.width)
  {
    hs.Get(Lcg(hs.IncrementalHash(hashcode, move, color)))
  }

  /** Every legal move is an on-board point. */
  lemma LegalOnBoard(board: NoGoBoard, player: int, moves: seq<int>)
    requires board.Valid()
    requires forall k :: 0 <= k < |moves| ==> moves[k] in LegalMoves(board.cells, board.ns, player)
    ensures forall k :: 0 <= k < |moves| ==> OnBoard(moves[k], board.height, board.width) && 0 <= moves[k] < |board.cells|
  {
    LegalMovesSpec(board.cells, board.ns, player);
    forall k | 0 <= k < |moves|
      ensures OnBoard(moves[k], board.height, board.width) && 0 <= moves[k] < |board.cells|
    {
      assert board.cells[moves[k]] == EMPTY;
    }
  }

  /** A legal move whose child a sound table holds as lost wins the position. */
  lemma ChildLost(t: Buckets, h: int, w: int, cells: seq<int>, move: int, player: int)
    requires Sound(t, h, w) && Small(h, w) && WellFormed(h, w, cells)
    requires player == ToMove(h, w, cells)
    requires move in LegalMoves(cells, Stride(w), player) && 0 <= move < |cells|
    requires Lookup(t, Key(h, w, cells[move := player])).Some?
    requires ValueBit(Lookup(t, Key(h, w, cells[move := player])).value) == 0
    ensures Value(cells[move := player], Stride(w), Opponent(player)) == 0
    ensures Value(cells, Stride(w), player) == 1
  {
    LegalMovesSpec(cells, Stride(w), player);
    PlaceStone(h, w, cells, move, player);
    PlaceWellFormed(h, w, cells, move, player);
    SoundLookup(t, h, w, cells[move := player]);
    ValueIff(cells, Stride(w), player);
  }

  /** A move h_etc finds (its child held as lost) wins the position. */
  lemma EtcWins(hs: Hash, cells: seq<int>, move: int, player: int)
    requires hs.Valid() && Small(hs.height, hs.width) && Sound(hs.table, hs.height, hs.width)
    requires WellFormed(hs.height, hs.width, cells) && player == ToMove(hs.height, hs.width, cells)
    requires move in LegalMoves(cells, Stride(hs.width), player) && 0 <= move < |cells|
    requires OnBoard(move, hs.height, hs.width)
    requires ChildGet(hs, FullHash(hs.height, hs.width, cells), move, player) == 0
    ensures Value(cells[move := player], Stride(hs.width), Opponent(player)) == 0
    ensures Value(cells, Stride(hs.width), player) == 1
  {
    LegalMovesSpec(cells, Stride(hs.width), player);
    IncrementalAgreesWithFull(hs, cells, move, player);
    ChildLost(hs.table, hs.height, hs.width, cells, move, player);
  }

  /** A legal move to a position of value 0 for the opponent wins the position. */
  lemma WinByMove(cells: seq<int>, ns: int, player: int, move: int)
    requires player == BLACK || player == WHITE
    requires move in LegalMoves(cells, ns, player) && 0 <= move < |cells|
    requires Value(cells[move := player], ns, Opponent(player)) == 0
    ensures Value(cells, ns, player) == 1
  {
    ValueIff(cells, ns, player);
  }

  /** Dropping a tried move whose child is won keeps the loop's account of the untried moves. */
  lemma RemoveTried(moves: seq<int>, idx: int, cells: seq<int>, ns: int, player: int)
    requires 0 <= idx < |moves| && (player == BLACK || player == WHITE)
    requires forall k :: 0 <= k < |moves| ==> moves[k] in LegalMoves(cells, ns, player)
    requires 0 <= moves[idx] < |cells| && cells[moves[idx]] == EMPTY
    requires Value(cells[moves[idx] := player], ns, Opponent(player)) == 1
    requires forall m :: m in LegalMoves(cells, ns, player) && m !in moves ==>
      0 <= m < |cells| && Value(cells[m := player], ns, Opponent(player)) == 1
    ensures var rest := moves[..idx] + moves[idx + 1..];
      && |rest| == |moves| - 1
      && (forall k :: 0 <= k < |rest| ==> rest[k] in LegalMoves(cells, ns, player))
      && (forall m :: m in LegalMoves(cells, ns, player) && m !in rest ==>
           0 <= m < |cells| && Value(cells[m := player], ns, Opponent(player)) == 1)
  {
    var rest := moves[..idx] + moves[idx + 1..];
    forall k | 0 <= k < |rest| ensures rest[k] in LegalMoves(cells, ns, player) {
      if k < idx {
        assert rest[k] == moves[k];
      } else {
        assert rest[k] == moves[k + 1];
      }
    }
    forall k | 0 <= k < |moves| && k != idx ensures moves[k] in rest {
      if k < idx {
        assert rest[k] == moves[k];
      } else {
        assert rest[k - 1] == moves[k];
      }
    }
    forall m | m in LegalMoves(cells, ns, player) && m !in rest
      ensures 0 <= m < |cells| && Value(cells[m := player], ns, Opponent(player)) == 1
    {
    }
  }

  // ---------------------------------------------------------------------------
  // proof_negamax as written (README, Findings)

  /** How proof_negamax's first steps end. */
  datatype ProofStart = Abort | AlreadyProved(value: bool) | Absent | Unproved(predicted: int)

  /**
   * search.cpp:94-105 as written: the proof flag is read before absence is tested,
   * and reading it for a key without an entry fails (hash.cpp:350-360 asserts the
   * entry was found, after dereferencing the bucket pointer, which is null when the
   * key's bucket does not exist). `Abort` is exact for a null bucket; for a bucket
   * that exists but lacks the code, the source's behaviour depends on whether that
   * assert is compiled in, and the model takes it as `Abort` as well.
   */
  function ProofStartAsWritten(t: Buckets, key: nat): (r: ProofStart)
    requires Shaped(t)
  {
    var predicted := if Lookup(t, key).Some? then ValueBit(Lookup(t, key).value) as int else -1;
    if Lookup(t, key).None? then Abort
    else if ProofBit(Lookup(t, key).value) then AlreadyProved(predicted == 1)
    else if predicted == -1 then Absent
    else Unproved(predicted)
  }

  /** As written, the absent-entry branch cannot be reached: an absent key aborts. */
  lemma AbsentAborts(t: Buckets, key: nat)
    requires Shaped(t) && Lookup(t, key).None?
    ensures ProofStartAsWritten(t, key) == Abort
    ensures forall k: nat :: ProofStartAsWritten(t, k) != Absent
  {
  }

  /** The smallest input that shows it: any key, on the empty table. */
  lemma EmptyTableAborts(key: nat)
    ensures Lookup(map[], key).None? && ProofStartAsWritten(map[], key) == Abort
  {
  }

  /** The table after hash.set_proof_bit on a present key. */
  function Marked(t: Buckets, key: nat): (marked: Buckets)
    requires Ordered(t) && key < LCG_M && Lookup(t, key).Some?
    ensures Shaped(marked) && Lookup(marked, key).Some? && ProofBit(Lookup(marked, key).value)
    ensures ValueBit(Lookup(marked, key).value) == ValueBit(Lookup(t, key).value)
    ensures forall h: nat :: h != key ==> Lookup(marked, h) == Lookup(t, h)
  {
    SetProofInTable(t, key);
    t[key / 1024 := BucketUtil.SetProofBit(t[key / 1024], key % 1024).0]
  }

  /**
   * The terminal branch as written (search.cpp:110-115): the flag is set whatever
   * the entry holds; the result reports the entry proved only when it holds 0.
   */
  function TerminalAsWritten(t: Buckets, key: nat): (r: (Buckets, bool))
    requires Ordered(t) && key < LCG_M && Lookup(t, key).Some?
  {
    (Marked(t, key), ValueBit(Lookup(t, key).value) == 0)
  }

  /**
   * A position without legal moves whose entry wrongly holds 1: the call reports
   * "not proved", yet leaves the wrong value flagged as proved, so the table is no
   * longer proof-sound (the next proof_negamax on it returns {1, true}).
   */
  lemma TerminalAsWrittenFlagsWrongValue(t: Buckets, h: int, w: int, cells: seq<int>)
    requires Ordered(t) && Small(h, w) && WellFormed(h, w, cells)
    requires LegalMoves(cells, Stride(w), ToMove(h, w, cells)) == []
    requires Lookup(t, Key(h, w, cells)).Some? && ValueBit(Lookup(t, Key(h, w, cells)).value) == 1
    ensures !TerminalAsWritten(t, Key(h, w, cells)).1
    ensures ProofStartAsWritten(TerminalAsWritten(t, Key(h, w, cells)).0, Key(h, w, cells)) == AlreadyProved(true)
    ensures !ProofSound(TerminalAsWritten(t, Key(h, w, cells)).0, h, w)
  {
    ValueIff(cells, Stride(w), ToMove(h, w, cells));
    var t1 := TerminalAsWritten(t, Key(h, w, cells)).0;
    if ProofSound(t1, h, w) {
      ProvedLookup(t1, h, w, cells);
    }
  }

  /**
   * The win branch as written (search.cpp:117-137): after checking the child found
   * by h_etc, the flag is set whatever that check gave; the result reports the
   * entry proved only when the child was proved with the matching value.
   */
  function WinAsWritten(t: Buckets, key: nat, childValue: bool, childProved: bool): (r: (Buckets, bool, bool))
    requires Ordered(t) && key < LCG_M && Lookup(t, key).Some?
  {
    var moveValue := 1 - (if childValue then 1 else 0);
    (Marked(t, key), true, childProved && ValueBit(Lookup(t, key).value) == moveValue)
  }

  /**
   * A lost position whose entry wrongly holds 1, where the child h_etc picks cannot
   * be proved: the call reports "not proved", yet flags the wrong value as proved.
   */
  lemma WinAsWrittenFlagsWrongValue(t: Buckets, h: int, w: int, cells: seq<int>, childValue: bool)
    requires Ordered(t) && Small(h, w) && WellFormed(h, w, cells)
    requires Value(cells, Stride(w), ToMove(h, w, cells)) == 0
    requires Lookup(t, Key(h, w, cells)).Some? && ValueBit(Lookup(t, Key(h, w, cells)).value) == 1
    ensures !WinAsWritten(t, Key(h, w, cells), childValue, false).2
    ensures !ProofSound(WinAsWritten(t, Key(h, w, cells), childValue, false).0, h, w)
  {
    var t1 := WinAsWritten(t, Key(h, w, cells), childValue, false).0;
    if ProofSound(t1, h, w) {
      ProvedLookup(t1, h, w, cells);
    }
  }
}
