/**
 * The NoGo board (NoGoBoard in board.cpp): a padded one-dimensional vector of cells,
 * the flood-fill liberty test, NoGo legality (no suicide and no capture), play and
 * undo, and ordered legal-move generation.
 *
 * The rules are stated first as functions of a cell vector (groups as chains of
 * same-coloured orthogonal neighbours); the class methods, which update the vector
 * step by step as the source does, are proved against them.
 */
module Board {
  import opened BoardUtil

  // ---------------------------------------------------------------------------
  // Geometry

  /** neighbors(): west, east, south, north in the padded layout. */
  function Neighbors(p: int, ns: int): seq<int>
  {
    [p - 1, p + 1, p - ns, p + ns]
  }

  /** diag_neighbors() */
  function DiagNeighbors(p: int, ns: int): seq<int>
  {
    [p - ns - 1, p - ns + 1, p + ns - 1, p + ns + 1]
  }

  predicate Adjacent(ns: int, a: int, b: int)
  {
    b == a - 1 || b == a + 1 || b == a - ns || b == a + ns
  }

  /** Number of cells of the padded vector of an h x w board. */
  function MaxPoint(h: int, w: int): int
  {
    (h + 2) * Stride(w) + 1
  }

  /**
   * A well-formed cell vector: the right length, BORDER exactly off the board, and
   * EMPTY, BLACK or WHITE on it.
   */
  ghost predicate WellFormed(h: int, w: int, cells: seq<int>)
  {
    && h >= 0 && w >= 0
    && |cells| == MaxPoint(h, w)
    && (forall q {:trigger OnBoard(q, h, w)} :: 0 <= q < |cells| ==> (cells[q] == BORDER <==> !OnBoard(q, h, w)))
    && (forall q :: 0 <= q < |cells| ==> 0 <= cells[q] <= BORDER)
    && (forall q :: 0 <= q < |cells| && cells[q] != BORDER ==> Stride(w) + 1 <= q <= |cells| - Stride(w) - 2)
  }

  lemma MulMono(a: int, b: int, c: int)
    requires a >= 0 && b <= c
    ensures a * b <= a * c
  {
  }

  /** Point q comes before row r, column c in row-major order, rows 1.. and columns 1..w. */
  predicate Before(q: int, ns: int, w: int, r: int, c: int)
    requires ns > 0
  {
    (1 <= q / ns < r && 1 <= q % ns <= w) || (q / ns == r && 1 <= q % ns < c)
  }

  /** The cells before row r, column c are EMPTY and all others BORDER. */
  predicate Filled(cells: seq<int>, ns: int, w: int, r: int, c: int)
    requires ns > 0
  {
    forall q :: 0 <= q < |cells| ==> cells[q] == (if Before(q, ns, w, r, c) then EMPTY else BORDER)
  }

  lemma FilledFirst(cells: seq<int>, ns: int, w: int)
    requires ns > 0 && forall q :: 0 <= q < |cells| ==> cells[q] == BORDER
    ensures Filled(cells, ns, w, 1, 1)
  {
  }

  /** Emptying the point of row r, column c moves the filled region one column on. */
  lemma FilledStep(cells: seq<int>, ns: int, w: int, r: int, c: int, p: int)
    requires ns > 0 && r >= 1 && 1 <= c < ns && p == r * ns + c && 0 <= p < |cells|
    requires Filled(cells, ns, w, r, c)
    ensures Filled(cells[p := EMPTY], ns, w, r, c + 1)
  {
    DivModOf(r, c, ns);
    forall q | 0 <= q < |cells| && q != p
      ensures Before(q, ns, w, r, c + 1) == Before(q, ns, w, r, c)
    {
      assert q == ns * (q / ns) + q % ns;
    }
  }

  /** A filled row ends where the next one starts. */
  lemma FilledRow(cells: seq<int>, ns: int, w: int, r: int)
    requires ns > 0 && r >= 1 && Filled(cells, ns, w, r, w + 1)
    ensures Filled(cells, ns, w, r + 1, 1)
  {
    forall q | 0 <= q < |cells| ensures cells[q] == (if Before(q, ns, w, r + 1, 1) then EMPTY else BORDER) {
      assert Before(q, ns, w, r + 1, 1) == Before(q, ns, w, r, w + 1);
    }
  }

  /** With every row filled, the EMPTY cells are exactly the on-board points. */
  lemma FilledAll(cells: seq<int>, h: int, w: int, ns: int)
    requires w >= 0 && ns == Stride(w) && Filled(cells, ns, w, h + 1, 1)
    ensures forall q :: 0 <= q < |cells| ==> cells[q] == (if OnBoard(q, h, w) then EMPTY else BORDER)
  {
  }

  /** Every on-board point lies inside the vector with all eight surrounding cells. */
  lemma OnBoardInside(q: int, h: int, w: int)
    requires w >= 0 && OnBoard(q, h, w)
    ensures Stride(w) + 1 <= q <= h * Stride(w) + w
    ensures q - Stride(w) - 1 >= 0 && q + Stride(w) + 1 < MaxPoint(h, w)
  {
    var ns := Stride(w);
    assert q == ns * (q / ns) + q % ns;
    MulMono(ns, 1, q / ns);
    MulMono(ns, q / ns, h);
    assert MaxPoint(h, w) == h * ns + 2 * ns + 1;
  }

  lemma NeighborsInside(h: int, w: int, cells: seq<int>, q: int)
    requires WellFormed(h, w, cells) && 0 <= q < |cells| && cells[q] != BORDER
    ensures OnBoard(q, h, w)
    ensures forall n :: Adjacent(Stride(w), q, n) ==> 0 <= n < |cells|
    ensures forall n :: n in Neighbors(q, Stride(w)) ==> 0 <= n < |cells|
    ensures forall n :: n in DiagNeighbors(q, Stride(w)) ==> 0 <= n < |cells|
  {
    OnBoardInside(q, h, w);
  }

  /** The board reset() builds is well formed. */
  lemma FreshBoardWellFormed(h: int, w: int, cells: seq<int>)
    requires h >= 0 && w >= 0 && |cells| == MaxPoint(h, w)
    requires forall q :: 0 <= q < |cells| ==> cells[q] == (if OnBoard(q, h, w) then EMPTY else BORDER)
    ensures WellFormed(h, w, cells)
  {
    forall q | 0 <= q < |cells| && cells[q] != BORDER
      ensures Stride(w) + 1 <= q <= |cells| - Stride(w) - 2
    {
      OnBoardInside(q, h, w);
    }
  }

  // ---------------------------------------------------------------------------
  // Groups and liberties

  /** `path` is a walk of orthogonal steps over cells that all hold `color`. */
  ghost predicate IsChain(cells: seq<int>, ns: int, path: seq<int>, color: int)
  {
    && |path| >= 1
    && (forall i :: 0 <= i < |path| ==> 0 <= path[i] < |cells| && cells[path[i]] == color)
    && (forall i :: 0 <= i < |path| - 1 ==> Adjacent(ns, path[i], path[i + 1]))
  }

  /** `q` belongs to the same-coloured orthogonally connected group as `p`. */
  ghost predicate InGroup(cells: seq<int>, ns: int, p: int, q: int)
  {
    0 <= p < |cells| &&
    exists path :: IsChain(cells, ns, path, cells[p]) && path[0] == p && path[|path| - 1] == q
  }

  ghost predicate HasEmptyNeighbor(cells: seq<int>, ns: int, q: int)
  {
    exists n :: Adjacent(ns, q, n) && 0 <= n < |cells| && cells[n] == EMPTY
  }

  /** The group containing `p` touches an EMPTY point. */
  ghost predicate GroupHasLiberty(cells: seq<int>, ns: int, p: int)
  {
    exists q :: InGroup(cells, ns, p, q) && HasEmptyNeighbor(cells, ns, q)
  }

  /** Every opponent group next to `p` has a liberty. */
  ghost predicate OpponentsLive(placed: seq<int>, ns: int, p: int, color: int)
  {
    forall n :: n in Neighbors(p, ns) && 0 <= n < |placed| && placed[n] == Opponent(color)
      ==> GroupHasLiberty(placed, ns, n)
  }

  /**
   * NoGo legality of `color` at `p`: the point is empty, and once the stone is on it
   * its own group has a liberty and no adjacent opponent group is left without one.
   */
  ghost predicate IsLegalMove(cells: seq<int>, ns: int, p: int, color: int)
  {
    && 0 <= p < |cells| && cells[p] == EMPTY
    && GroupHasLiberty(cells[p := color], ns, p)
    && OpponentsLive(cells[p := color], ns, p, color)
  }

  /** Each marked cell is reached from `point` by the chain recorded for it. */
  ghost predicate Reached(cells: seq<int>, ns: int, marker: seq<bool>, paths: map<int, seq<int>>, color: int, point: int)
  {
    forall q :: 0 <= q < |marker| && marker[q] ==>
      q in paths && IsChain(cells, ns, paths[q], color) && paths[q][0] == point && paths[q][|paths[q]| - 1] == q
  }

  /** A marked cell all of whose neighbours are non-empty and, when of `color`, marked. */
  ghost predicate Closed(cells: seq<int>, ns: int, marker: seq<bool>, color: int, q: int)
  {
    forall n :: Adjacent(ns, q, n) ==>
      0 <= n < |cells| && n < |marker| && cells[n] != EMPTY && (cells[n] == color ==> marker[n])
  }

  /** A set of marked cells closed under same-coloured steps contains every chain leaving it. */
  lemma {:induction false} ChainStaysMarked(cells: seq<int>, ns: int, marker: seq<bool>, color: int, path: seq<int>)
    requires IsChain(cells, ns, path, color) && |marker| == |cells| && marker[path[0]]
    requires forall q :: 0 <= q < |cells| && marker[q] ==> Closed(cells, ns, marker, color, q)
    ensures marker[path[|path| - 1]]
    decreases |path|
  {
    if |path| > 1 {
      var prefix := path[..|path| - 1];
      assert IsChain(cells, ns, prefix, color);
      ChainStaysMarked(cells, ns, marker, color, prefix);
      var q := path[|path| - 2];
      assert Closed(cells, ns, marker, color, q);
      assert Adjacent(ns, q, path[|path| - 1]);
    }
  }

  lemma ExtendChain(cells: seq<int>, ns: int, path: seq<int>, color: int, n: int)
    requires IsChain(cells, ns, path, color)
    requires 0 <= n < |cells| && cells[n] == color && Adjacent(ns, path[|path| - 1], n)
    ensures IsChain(cells, ns, path + [n], color)
  {
  }

  lemma ReachedMember(cells: seq<int>, ns: int, marker: seq<bool>, paths: map<int, seq<int>>, color: int, point: int, q: int)
    requires Reached(cells, ns, marker, paths, color, point) && 0 <= q < |marker| && marker[q]
    ensures 0 <= q < |cells| && cells[q] == color
    ensures 0 <= point < |cells| && cells[point] == color ==> InGroup(cells, ns, point, q)
  {
    var path := paths[q];
    assert path[|path| - 1] == q;
  }

  /** A neighbour that is not EMPTY and, when of `color`, already marked. */
  ghost predicate Settled(cells: seq<int>, marker: seq<bool>, color: int, n: int)
  {
    0 <= n < |cells| && n < |marker| && cells[n] != EMPTY && (cells[n] == color ==> marker[n])
  }

  lemma SettledGrows(cells: seq<int>, m0: seq<bool>, m1: seq<bool>, color: int, n: int)
    requires Settled(cells, m0, color, n) && |m0| == |m1|
    requires forall q :: 0 <= q < |m0| && m0[q] ==> m1[q]
    ensures Settled(cells, m1, color, n)
  {
  }

  /** A point whose four listed neighbours are settled is closed. */
  lemma NeighborsClosed(cells: seq<int>, ns: int, marker: seq<bool>, color: int, p: int)
    requires |marker| == |cells|
    requires forall k :: 0 <= k < 4 ==> 0 <= Neighbors(p, ns)[k] < |cells|
    requires forall k :: 0 <= k < 4 ==> Settled(cells, marker, color, Neighbors(p, ns)[k])
    ensures Closed(cells, ns, marker, color, p)
  {
    var nbrs := Neighbors(p, ns);
    forall n | Adjacent(ns, p, n)
      ensures 0 <= n < |cells| && n < |marker| && cells[n] != EMPTY && (cells[n] == color ==> marker[n])
    {
      assert n == nbrs[0] || n == nbrs[1] || n == nbrs[2] || n == nbrs[3];
    }
  }

  lemma ClosedGrows(cells: seq<int>, ns: int, m0: seq<bool>, m1: seq<bool>, color: int, q: int)
    requires Closed(cells, ns, m0, color, q) && |m0| == |m1|
    requires forall k :: 0 <= k < |m0| && m0[k] ==> m1[k]
    ensures Closed(cells, ns, m1, color, q)
  {
  }

  function Unmarked(marker: seq<bool>): set<int>
  {
    set q | 0 <= q < |marker| && !marker[q]
  }

  lemma MarkShrinks(marker: seq<bool>, n: int)
    requires 0 <= n < |marker| && !marker[n]
    ensures Unmarked(marker[n := true]) < Unmarked(marker)
  {
    assert n in Unmarked(marker) && n !in Unmarked(marker[n := true]);
  }

  // ---------------------------------------------------------------------------
  // Counting, empty points and legal moves as values

  function CountOf(cells: seq<int>, v: int): nat
  {
    if cells == [] then 0 else CountOf(cells[..|cells| - 1], v) + (if cells[|cells| - 1] == v then 1 else 0)
  }

  /** Setting one cell moves exactly one unit of count from its old value to its new one. */
  lemma {:induction false} CountOfUpdate(cells: seq<int>, p: int, x: int, v: int)
    requires 0 <= p < |cells|
    ensures CountOf(cells[p := x], v)
         == CountOf(cells, v) - (if cells[p] == v then 1 else 0) + (if x == v then 1 else 0)
    decreases |cells|
  {
    var u := cells[p := x];
    var k := |cells| - 1;
    if p < k {
      assert u[..k] == cells[..k][p := x];
      CountOfUpdate(cells[..k], p, x, v);
    } else {
      assert u[..k] == cells[..k];
    }
  }

  /** The EMPTY points among the first `n` cells, in increasing order (get_empty_points). */
  function EmptyPointsBelow(cells: seq<int>, n: nat): seq<int>
    requires n <= |cells|
  {
    if n == 0 then [] else EmptyPointsBelow(cells, n - 1) + (if cells[n - 1] == EMPTY then [n - 1] else [])
  }

  function EmptyPoints(cells: seq<int>): seq<int>
  {
    EmptyPointsBelow(cells, |cells|)
  }

  predicate StrictlyIncreasing(s: seq<int>)
  {
    forall i, j :: 0 <= i < j < |s| ==> s[i] < s[j]
  }

  /** get_empty_points lists exactly the EMPTY points, each once, in increasing order. */
  lemma {:induction false} EmptyPointsBelowSpec(cells: seq<int>, n: nat)
    requires n <= |cells|
    ensures StrictlyIncreasing(EmptyPointsBelow(cells, n))
    ensures forall x :: x in EmptyPointsBelow(cells, n) <==> 0 <= x < n && cells[x] == EMPTY
    ensures |EmptyPointsBelow(cells, n)| == CountOf(cells[..n], EMPTY)
  {
    if n > 0 {
      EmptyPointsBelowSpec(cells, n - 1);
      var prev, cur := EmptyPointsBelow(cells, n - 1), EmptyPointsBelow(cells, n);
      assert cells[..n][..n - 1] == cells[..n - 1];
      assert cells[..n][n - 1] == cells[n - 1];
      if cells[n - 1] == EMPTY {
        forall i, j | 0 <= i < j < |cur| ensures cur[i] < cur[j] {
          if j == |prev| {
            assert prev[i] in prev;
          }
        }
      }
    }
  }

  // ---------------------------------------------------------------------------
  // The board object

  class NoGoBoard {
    var height: int          // size[0]
    var width: int           // size[1]
    var ns: int              // row stride
    var maxpoint: int
    var cells: seq<int>      // board
    var currentPlayer: int

    ghost predicate Valid()
      reads this
    {
      && WellFormed(height, width, cells)
      && ns == Stride(width) && maxpoint == MaxPoint(height, width)
      && (currentPlayer == BLACK || currentPlayer == WHITE)
    }

    constructor (vSize: int, hSize: int)
      requires vSize >= 0 && hSize >= 0
      ensures Valid() && height == vSize && width == hSize
      ensures currentPlayer == BLACK
      ensures forall q :: 0 <= q < |cells| ==> cells[q] == (if OnBoard(q, vSize, hSize) then EMPTY else BORDER)
    {
      height, width := vSize, hSize;
      ns := hSize + 1;
      maxpoint := MaxPoint(vSize, hSize);
      cells := [];
      currentPlayer := BLACK;
      new;
      Reset(vSize, hSize);
    }

    /** reset(): an empty h x w board with BLACK to move. */
    method Reset(vSize: int, hSize: int)
      requires vSize >= 0 && hSize >= 0
      modifies this
      ensures Valid() && height == vSize && width == hSize
      ensures ns == hSize + 1 && maxpoint == (vSize + 2) * ns + 1
      ensures currentPlayer == BLACK
      ensures forall q :: 0 <= q < |cells| ==> cells[q] == (if OnBoard(q, vSize, hSize) then EMPTY else BORDER)
    {
      height, width := vSize, hSize;
      ns := hSize + 1;
      currentPlayer := BLACK;
      maxpoint := (vSize + 2) * ns + 1;
      cells := seq(maxpoint, _ => BORDER);
      InitializeEmptyPoints();
      FreshBoardWellFormed(vSize, hSize, cells);
    }

    /** initialize_empty_points(): rows 1..h, columns 1..w become EMPTY. */
    method InitializeEmptyPoints()
      requires height >= 0 && width >= 0 && ns == width + 1 && maxpoint == MaxPoint(height, width)
      requires cells == seq(maxpoint, _ => BORDER)
      modifies this`cells
      ensures forall q :: 0 <= q < |cells| ==> cells[q] == (if OnBoard(q, height, width) then EMPTY else BORDER)
      ensures |cells| == maxpoint
    {
      FilledFirst(cells, ns, width);
      var r := 1;
      while r <= height
        invariant 1 <= r <= height + 1 && |cells| == maxpoint
        invariant Filled(cells, ns, width, r, 1)
      {
        var start := r * ns + 1;
        var c := 1;
        while c <= width
          invariant 1 <= c <= width + 1 && |cells| == maxpoint && start == r * ns + c
          invariant Filled(cells, ns, width, r, c)
        {
          DivModOf(r, c, ns);
          assert r * ns + c == start;
          OnBoardInside(start, height, width);
          FilledStep(cells, ns, width, r, c, start);
          cells := cells[start := EMPTY];
          start := start + 1;
          c := c + 1;
        }
        FilledRow(cells, ns, width, r);
        r := r + 1;
      }
      FilledAll(cells, height, width, ns);
    }

    /** has_liberty(): a worklist flood fill over the group of `point`. */
    method HasLiberty(point: int) returns (lib: bool)
      requires Valid() && 0 <= point < maxpoint && cells[point] != BORDER
      ensures lib == GroupHasLiberty(cells, ns, point)
    {
      var marker := seq(maxpoint, _ => false);
      var stack := [point];
      var color := cells[point];
      marker := marker[point := true];
      ghost var paths: map<int, seq<int>> := map[point := [point]];
      assert IsChain(cells, ns, [point], color);
      while stack != []
        invariant |marker| == maxpoint && marker[point]
        invariant forall q :: q in stack ==> 0 <= q < maxpoint && marker[q]
        invariant Reached(cells, ns, marker, paths, color, point)
        invariant forall q :: 0 <= q < maxpoint && marker[q] && q !in stack ==> Closed(cells, ns, marker, color, q)
        decreases Unmarked(marker), |stack|
      {
        var p := stack[|stack| - 1];
        ghost var marker0, stack0 := marker, stack;
        stack := stack[..|stack| - 1];
        assert stack0 == stack + [p];
        assert p in stack0;
        forall q | q in stack ensures 0 <= q < maxpoint && marker[q] {
          assert q in stack0;
        }
        ReachedMember(cells, ns, marker, paths, color, point, p);
        NeighborsInside(height, width, cells, p);
        var found;
        found, marker, stack, paths := ScanNeighbors(p, color, point, marker, stack, paths);
        if found {
          return true;
        }
        forall q | 0 <= q < maxpoint && marker[q] && q !in stack
          ensures Closed(cells, ns, marker, color, q)
        {
          if q != p {
            assert q !in stack0;
            ClosedGrows(cells, ns, marker0, marker, color, q);
          }
        }
      }
      lib := false;
      forall q | InGroup(cells, ns, point, q) ensures !HasEmptyNeighbor(cells, ns, q) {
        var path :| IsChain(cells, ns, path, color) && path[0] == point && path[|path| - 1] == q;
        ChainStaysMarked(cells, ns, marker, color, path);
      }
    }

    /** One pass of has_liberty's neighbour loop for the popped point `p`. */
    method ScanNeighbors(p: int, color: int, ghost point: int, marker: seq<bool>, stack: seq<int>,
                         ghost paths: map<int, seq<int>>)
      returns (found: bool, marker': seq<bool>, stack': seq<int>, ghost paths': map<int, seq<int>>)
      requires |cells| == maxpoint && 0 <= p < maxpoint && cells[p] == color
      requires forall k :: 0 <= k < 4 ==> 0 <= Neighbors(p, ns)[k] < maxpoint
      requires |marker| == maxpoint && marker[p]
      requires Reached(cells, ns, marker, paths, color, point)
      requires forall q :: q in stack ==> 0 <= q < maxpoint && marker[q]
      ensures found ==> HasEmptyNeighbor(cells, ns, p) && InGroup(cells, ns, point, p)
      ensures !found ==> Closed(cells, ns, marker', color, p)
      ensures |marker'| == maxpoint && Reached(cells, ns, marker', paths', color, point)
      ensures forall q :: 0 <= q < maxpoint && marker[q] ==> marker'[q]
      ensures forall q :: q in stack' ==> 0 <= q < maxpoint && marker'[q]
      ensures forall q :: q in stack ==> q in stack'
      ensures forall q :: 0 <= q < maxpoint && marker'[q] && !marker[q] ==> q in stack'
      ensures (marker' == marker && stack' == stack) || Unmarked(marker') < Unmarked(marker)
    {
      marker', stack', paths' := marker, stack, paths;
      ReachedMember(cells, ns, marker, paths, color, point, p);
      var nbrs := Neighbors(p, ns);
      for i := 0 to 4
        invariant |marker'| == maxpoint && marker'[p]
        invariant Reached(cells, ns, marker', paths', color, point)
        invariant forall q :: 0 <= q < maxpoint && marker[q] ==> marker'[q]
        invariant forall q :: q in stack' ==> 0 <= q < maxpoint && marker'[q]
        invariant forall q :: q in stack ==> q in stack'
        invariant forall q :: 0 <= q < maxpoint && marker'[q] && !marker[q] ==> q in stack'
        invariant forall k :: 0 <= k < i ==> Settled(cells, marker', color, nbrs[k])
        invariant (marker' == marker && stack' == stack) || Unmarked(marker') < Unmarked(marker)
      {
        var n := nbrs[i];
        if cells[n] == EMPTY {
          return true, marker', stack', paths';
        }
        ghost var settled := marker';
        marker', stack', paths' := Visit(p, n, color, point, marker', stack', paths');
        forall k | 0 <= k <= i ensures Settled(cells, marker', color, nbrs[k]) {
          if k < i {
            SettledGrows(cells, settled, marker', color, nbrs[k]);
          }
        }
      }
      NeighborsClosed(cells, ns, marker', color, p);
      found := false;
    }

    /** Marks and pushes the neighbour `n` of `p` when it continues the group. */
    method Visit(p: int, n: int, color: int, ghost point: int, marker: seq<bool>, stack: seq<int>,
                 ghost paths: map<int, seq<int>>)
      returns (marker': seq<bool>, stack': seq<int>, ghost paths': map<int, seq<int>>)
      requires |cells| == maxpoint && 0 <= p < maxpoint && cells[p] == color && Adjacent(ns, p, n) && 0 <= n < maxpoint
      requires |marker| == maxpoint && marker[p] && Reached(cells, ns, marker, paths, color, point)
      ensures |marker'| == maxpoint && Reached(cells, ns, marker', paths', color, point)
      ensures forall q :: 0 <= q < maxpoint && marker[q] ==> marker'[q]
      ensures forall q :: 0 <= q < maxpoint && marker'[q] && !marker[q] ==> q == n
      ensures cells[n] == color ==> marker'[n]
      ensures (marker' == marker && stack' == stack) || (stack' == stack + [n] && Unmarked(marker') < Unmarked(marker))
    {
      marker', stack', paths' := marker, stack, paths;
      if !marker[n] && cells[n] == color {
        MarkShrinks(marker, n);
        ExtendChain(cells, ns, paths[p], color, n);
        paths' := paths[n := paths[p] + [n]];
        marker' := marker[n := true];
        stack' := stack + [n];
      }
    }

    /** is_legal(): places the stone, tests the liberties, and takes it back on every path. */
    method IsLegal(point: int, color: int) returns (legal: bool)
      requires Valid() && 0 <= point < maxpoint && (color == BLACK || color == WHITE)
      modifies this
      ensures unchanged(this)
      ensures legal == IsLegalMove(cells, ns, point, color)
    {
      if cells[point] != EMPTY {
        return false;
      }
      ghost var before := cells;
      cells := cells[point := color];
      legal := Probe(point, color);
      cells := cells[point := EMPTY];
      assert cells == before;
    }

    /** The tests is_legal makes while its stone is on the board. */
    method Probe(point: int, color: int) returns (legal: bool)
      requires Valid() && 0 <= point < maxpoint && (color == BLACK || color == WHITE) && cells[point] == color
      ensures legal <==> GroupHasLiberty(cells, ns, point) && OpponentsLive(cells, ns, point, color)
    {
      legal := HasLiberty(point);
      if !legal {
        return;
      }
      var oppColor := Opponent(color);
      NeighborsInside(height, width, cells, point);
      var nbrs := Neighbors(point, ns);
      for i := 0 to |nbrs|
        invariant forall k :: 0 <= k < i && cells[nbrs[k]] == oppColor ==> GroupHasLiberty(cells, ns, nbrs[k])
      {
        var nbr := nbrs[i];
        if cells[nbr] == oppColor {
          var nlib := HasLiberty(nbr);
          if !nlib {
            return false;
          }
        }
      }
    }

    /** play_move(): with the legality check, an illegal move changes nothing. */
    method PlayMove(point: int, color: int, checkLegality: bool) returns (ok: bool)
      requires Valid() && (color == BLACK || color == WHITE)
      requires 0 <= point < maxpoint
      requires !checkLegality ==> OnBoard(point, height, width)
      modifies this
      ensures Valid()
      ensures height == old(height) && width == old(width) && ns == old(ns) && maxpoint == old(maxpoint)
      ensures ok == (!checkLegality || IsLegalMove(old(cells), ns, point, color))
      ensures ok ==> cells == old(cells)[point := color] && currentPlayer == Opponent(color)
      ensures !ok ==> unchanged(this)
    {
      if checkLegality {
        var legal := IsLegal(point, color);
        if !legal {
          return false;
        }
      }
      cells := cells[point := color];
      currentPlayer := Opponent(color);
      return true;
    }

    /** undo_move(): clears a stone and hands the turn back. */
    method UndoMove(point: int) returns (ok: bool)
      requires Valid() && 0 <= point < maxpoint && OnBoard(point, height, width)
      requires cells[point] != EMPTY
      modifies this
      ensures Valid() && ok
      ensures height == old(height) && width == old(width) && ns == old(ns) && maxpoint == old(maxpoint)
      ensures cells == old(cells)[point := EMPTY] && currentPlayer == Opponent(old(currentPlayer))
    {
      cells := cells[point := EMPTY];
      currentPlayer := Opponent(currentPlayer);
      return true;
    }

    /** get_empty_points() */
    method GetEmptyPoints() returns (pts: seq<int>)
      requires Valid()
      ensures pts == EmptyPoints(cells)
    {
      pts := [];
      var p := 0;
      while p < maxpoint
        invariant 0 <= p <= maxpoint
        invariant pts == EmptyPointsBelow(cells, p)
      {
        if cells[p] == EMPTY {
          pts := pts + [p];
        }
        p := p + 1;
      }
    }

    /** generate_legal_moves(): the empty points, in order, at which `color` may legally play. */
    method GenerateLegalMoves(color: int) returns (moves: seq<int>)
      requires Valid() && (color == BLACK || color == WHITE)
      modifies this
      ensures unchanged(this)
      ensures moves == LegalAmong(cells, ns, color, EmptyPoints(cells))
    {
      var candidates := GetEmptyPoints();
      EmptyPointsBelowSpec(cells, |cells|);
      moves := [];
      var i := 0;
      while i < |candidates|
        invariant 0 <= i <= |candidates| && unchanged(this)
        invariant moves == LegalAmong(cells, ns, color, candidates[..i])
      {
        var move := candidates[i];
        assert move in candidates;
        assert candidates[..i + 1][..i] == candidates[..i];
        var legal := IsLegal(move, color);
        if legal {
          moves := moves + [move];
        }
        i := i + 1;
      }
      assert candidates[..|candidates|] == candidates;
    }

    /** twoD_board(): row i of the grid is board row height - i, columns 1..width. */
    method TwoDBoard() returns (grid: seq<seq<int>>)
      requires Valid()
      ensures grid == TwoD(height, width, cells)
    {
      grid := [];
      var r := height;
      while r > 0
        invariant 0 <= r <= height
        invariant grid == TwoD(height, width, cells)[..height - r]
      {
        var row := [];
        var start := r * ns + 1;
        var c := 1;
        while c <= width
          invariant 1 <= c <= width + 1 && start == r * ns + c
          invariant row == TwoDRow(height, width, cells, r)[..c - 1]
        {
          RowCellInside(height, width, r, c);
          assert TwoDRow(height, width, cells, r)[c - 1] == cells[start];
          assert TwoDRow(height, width, cells, r)[..c] == row + [cells[start]];
          row := row + [cells[start]];
          start := start + 1;
          c := c + 1;
        }
        assert row == TwoDRow(height, width, cells, r);
        assert TwoD(height, width, cells)[height - r] == row;
        assert TwoD(height, width, cells)[..height - r + 1] == grid + [row];
        grid := grid + [row];
        r := r - 1;
      }
    }

    /** is_surrounded(): every neighbour is a border or a stone of `color`. */
    method IsSurrounded(point: int, color: int) returns (surrounded: bool)
      requires Valid() && 0 <= point < maxpoint && OnBoard(point, height, width)
      ensures surrounded == Surrounded(cells, ns, point, color)
    {
      NeighborsInside(height, width, cells, point);
      var nbrs := Neighbors(point, ns);
      for i := 0 to |nbrs|
        invariant forall k :: 0 <= k < i ==> cells[nbrs[k]] == BORDER || cells[nbrs[k]] == color
      {
        var nbrColor := cells[nbrs[i]];
        if nbrColor != BORDER && nbrColor != color {
          return false;
        }
      }
      return true;
    }

    /** is_eye(): surrounded, and at most one diagonal opponent stone (none at the edge). */
    method IsEye(point: int, color: int) returns (eye: bool)
      requires Valid() && 0 <= point < maxpoint && OnBoard(point, height, width)
      ensures eye == Eye(cells, ns, point, color)
    {
      var surrounded := IsSurrounded(point, color);
      if !surrounded {
        return false;
      }
      NeighborsInside(height, width, cells, point);
      var oppColor := Opponent(color);
      var falseCount, atEdge := 0, 0;
      var diag := DiagNeighbors(point, ns);
      for i := 0 to |diag|
        invariant falseCount == CountAt(cells, diag[..i], oppColor)
        invariant atEdge == (if AnyAt(cells, diag[..i], BORDER) then 1 else 0)
      {
        assert diag[..i + 1][..i] == diag[..i];
        if cells[diag[i]] == BORDER {
          atEdge := 1;
        }
        if cells[diag[i]] == oppColor {
          falseCount := falseCount + 1;
        }
      }
      assert diag[..4] == diag;
      return falseCount <= 1 - atEdge;
    }
  }

  /** The legal points of `pts`, in order (the filtering loop of generate_legal_moves). */
  ghost function LegalAmong(cells: seq<int>, ns: int, color: int, pts: seq<int>): seq<int>
  {
    if pts == [] then []
    else LegalAmong(cells, ns, color, pts[..|pts| - 1])
         + (if IsLegalMove(cells, ns, pts[|pts| - 1], color) then [pts[|pts| - 1]] else [])
  }

  /** The moves of `LegalAmong` are exactly the legal members of `pts`, in the order of `pts`. */
  lemma LegalAmongSpec(cells: seq<int>, ns: int, color: int, pts: seq<int>)
    ensures forall x :: x in LegalAmong(cells, ns, color, pts) <==> x in pts && IsLegalMove(cells, ns, x, color)
    ensures StrictlyIncreasing(pts) ==> StrictlyIncreasing(LegalAmong(cells, ns, color, pts))
    ensures |LegalAmong(cells, ns, color, pts)| <= |pts|
  {
    LegalAmongMembers(cells, ns, color, pts);
    LegalAmongLength(cells, ns, color, pts);
    if StrictlyIncreasing(pts) {
      LegalAmongIncreasing(cells, ns, color, pts);
    }
  }

  lemma {:induction false} LegalAmongMembers(cells: seq<int>, ns: int, color: int, pts: seq<int>)
    ensures forall x :: x in LegalAmong(cells, ns, color, pts) <==> x in pts && IsLegalMove(cells, ns, x, color)
  {
    if pts != [] {
      var init := pts[..|pts| - 1];
      LegalAmongMembers(cells, ns, color, init);
      assert pts == init + [pts[|pts| - 1]];
    }
  }

  lemma {:induction false} LegalAmongLength(cells: seq<int>, ns: int, color: int, pts: seq<int>)
    ensures |LegalAmong(cells, ns, color, pts)| <= |pts|
  {
    if pts != [] {
      LegalAmongLength(cells, ns, color, pts[..|pts| - 1]);
    }
  }

  lemma {:induction false} LegalAmongIncreasing(cells: seq<int>, ns: int, color: int, pts: seq<int>)
    requires StrictlyIncreasing(pts)
    ensures StrictlyIncreasing(LegalAmong(cells, ns, color, pts))
  {
    if pts != [] {
      var init, last := pts[..|pts| - 1], pts[|pts| - 1];
      assert StrictlyIncreasing(init);
      LegalAmongIncreasing(cells, ns, color, init);
      LegalAmongMembers(cells, ns, color, init);
      var before, after := LegalAmong(cells, ns, color, init), LegalAmong(cells, ns, color, pts);
      forall x | x in before ensures x < last {
        var k :| 0 <= k < |init| && init[k] == x;
      }
      forall i, j | 0 <= i < j < |after| ensures after[i] < after[j] {
        if j == |before| {
          assert before[i] in before;
        }
      }
    }
  }

  /** The legal moves of `color`: the empty points at which it may play, in increasing order. */
  ghost function LegalMoves(cells: seq<int>, ns: int, color: int): seq<int>
  {
    LegalAmong(cells, ns, color, EmptyPoints(cells))
  }

  /** generate_legal_moves lists exactly the legal points, each once, in increasing order. */
  lemma LegalMovesSpec(cells: seq<int>, ns: int, color: int)
    ensures forall x :: x in LegalMoves(cells, ns, color) <==> 0 <= x < |cells| && IsLegalMove(cells, ns, x, color)
    ensures StrictlyIncreasing(LegalMoves(cells, ns, color))
  {
    EmptyPointsBelowSpec(cells, |cells|);
    LegalAmongSpec(cells, ns, color, EmptyPoints(cells));
  }

  /** One row of twoD_board: board row r, columns 1..w. */
  function TwoDRow(h: int, w: int, cells: seq<int>, r: int): (row: seq<int>)
    requires h >= 0 && w >= 0 && |cells| == MaxPoint(h, w) && 1 <= r <= h
    ensures |row| == w
  {
    seq(w, j requires 0 <= j < w => RowCell(h, w, cells, r, j + 1))
  }

  function RowCell(h: int, w: int, cells: seq<int>, r: int, c: int): int
    requires h >= 0 && w >= 0 && |cells| == MaxPoint(h, w) && 1 <= r <= h && 1 <= c <= w
  {
    RowCellInside(h, w, r, c);
    cells[r * Stride(w) + c]
  }

  lemma RowCellInside(h: int, w: int, r: int, c: int)
    requires h >= 0 && w >= 0 && 1 <= r <= h && 1 <= c <= w
    ensures 0 <= r * Stride(w) + c < MaxPoint(h, w)
  {
    MulMono(Stride(w), r, h);
    assert r * Stride(w) == Stride(w) * r;
    assert MaxPoint(h, w) == h * Stride(w) + 2 * Stride(w) + 1;
  }

  /** twoD_board: `h` rows of `w` cells, the first being the top row h of the board. */
  function TwoD(h: int, w: int, cells: seq<int>): (grid: seq<seq<int>>)
    requires h >= 0 && w >= 0 && |cells| == MaxPoint(h, w)
    ensures |grid| == h && forall i :: 0 <= i < h ==> |grid[i]| == w
  {
    seq(h, i requires 0 <= i < h => TwoDRow(h, w, cells, h - i))
  }

  /** How many of the points `pts` hold `v`. */
  function CountAt(cells: seq<int>, pts: seq<int>, v: int): nat
    requires forall k :: 0 <= k < |pts| ==> 0 <= pts[k] < |cells|
  {
    if pts == [] then 0
    else CountAt(cells, pts[..|pts| - 1], v) + (if cells[pts[|pts| - 1]] == v then 1 else 0)
  }

  predicate AnyAt(cells: seq<int>, pts: seq<int>, v: int)
  {
    exists k :: 0 <= k < |pts| && 0 <= pts[k] < |cells| && cells[pts[k]] == v
  }

  ghost predicate Surrounded(cells: seq<int>, ns: int, p: int, color: int)
  {
    forall n :: n in Neighbors(p, ns) ==> 0 <= n < |cells| && (cells[n] == BORDER || cells[n] == color)
  }

  ghost predicate Eye(cells: seq<int>, ns: int, p: int, color: int)
  {
    && Surrounded(cells, ns, p, color)
    && (forall k :: 0 <= k < 4 ==> 0 <= DiagNeighbors(p, ns)[k] < |cells|)
    && CountAt(cells, DiagNeighbors(p, ns), Opponent(color))
       <= 1 - (if AnyAt(cells, DiagNeighbors(p, ns), BORDER) then 1 else 0)
  }

  /** A chain of `o` stones starting at a point whose neighbours all hold another colour never leaves it. */
  lemma {:induction false} ChainStaysPut(cells: seq<int>, ns: int, path: seq<int>, p: int, o: int)
    requires IsChain(cells, ns, path, o) && path[0] == p
    requires forall n :: n in Neighbors(p, ns) && n != p ==> 0 <= n < |cells| && cells[n] != o
    ensures path[|path| - 1] == p
    decreases |path|
  {
    if |path| > 1 {
      var n := path[1];
      assert Adjacent(ns, path[0], path[1]);
      assert n in Neighbors(p, ns);
      assert n == p;
      ChainStaysPut(cells, ns, path[1..], p, o);
    }
  }

  /**
   * A point surrounded by `color` (and the border) is never a legal move for the opponent:
   * the opponent's stone would form a group of one with no liberty.
   */
  lemma SurroundedIllegalForOpponent(cells: seq<int>, ns: int, p: int, color: int)
    requires color == BLACK || color == WHITE
    requires Surrounded(cells, ns, p, color)
    ensures !IsLegalMove(cells, ns, p, Opponent(color))
  {
    var o := Opponent(color);
    if 0 <= p < |cells| && cells[p] == EMPTY {
      var placed := cells[p := o];
      forall q | InGroup(placed, ns, p, q)
        ensures !HasEmptyNeighbor(placed, ns, q)
      {
        var path :| IsChain(placed, ns, path, placed[p]) && path[0] == p && path[|path| - 1] == q;
        ChainStaysPut(placed, ns, path, p, o);
        forall n | Adjacent(ns, q, n) && 0 <= n < |placed|
          ensures placed[n] != EMPTY
        {
          assert n in Neighbors(p, ns);
        }
      }
    }
  }

  /** In particular an eye of `color` is never a legal move for the opponent. */
  lemma EyeIllegalForOpponent(cells: seq<int>, ns: int, p: int, color: int)
    requires color == BLACK || color == WHITE
    requires Eye(cells, ns, p, color)
    ensures !IsLegalMove(cells, ns, p, Opponent(color))
  {
    SurroundedIllegalForOpponent(cells, ns, p, color);
  }
}
