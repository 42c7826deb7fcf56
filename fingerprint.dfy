/**
 * The position fingerprint of the transposition table (hash.cpp): every cell of the
 * board is a base-3 digit, the first cell of the last twoD_board row (board row 1,
 * column 1, canonical point 0) most significant, and the value is kept modulo 2^64
 * as a uint64_t. linear_congruence_func then mixes
 * it into [0, 2^40), whose high 30 bits pick a bucket and low 10 bits the code.
 *
 * The reference definition PolySum is the positional sum
 * s[0] * 3^(n-1) + ... + s[n-1] * 3^0; the loops of hash_func compute it by Horner's rule.
 */
module Fingerprint {
  import opened BoardUtil
  import opened Entry
  import opened Board

  function Pow3(n: nat): (r: nat)
    ensures r >= 1
  {
    if n == 0 then 1 else 3 * Pow3(n - 1)
  }

  /** The positional base-3 value of a digit sequence, most significant digit first. */
  function PolySum(s: seq<int>): int
  {
    if s == [] then 0 else s[0] * Pow3(|s| - 1) + PolySum(s[1..])
  }

  /** A digit sequence of cell values: EMPTY, BLACK or WHITE. */
  predicate Digits(s: seq<int>)
  {
    forall i :: 0 <= i < |s| ==> 0 <= s[i] <= 2
  }

  // ---------------------------------------------------------------------------
  // Horner's rule and the uint64_t wrap

  /** One Horner step: appending a digit multiplies the value by 3 and adds the digit. */
  lemma {:induction false} PolySumSnoc(s: seq<int>, x: int)
    ensures PolySum(s + [x]) == 3 * PolySum(s) + x
  {
    if s != [] {
      assert (s + [x])[1..] == s[1..] + [x];
      PolySumSnoc(s[1..], x);
    } else {
      assert s + [x] == [x];
    }
  }

  lemma AddMulMod(a: int, k: int, m: int)
    requires m > 0
    ensures (a + m * k) % m == a % m
  {
    DivModUnique(a + m * k, m, a / m + k, a % m);
  }

  /** Reducing the accumulator before a Horner step does not change the result modulo 2^64. */
  lemma HornerStepMod(p: int, x: int)
    ensures ((p % U64) * 3 + x) % U64 == (3 * p + x) % U64
  {
    var q := p / U64;
    assert 3 * p + x == ((p % U64) * 3 + x) + U64 * (3 * q);
    AddMulMod((p % U64) * 3 + x, 3 * q, U64);
  }

  /** The first n powers of three, each wrapped to 64 bits: what m_poly_terms holds. */
  function PolyTerms(n: nat): (terms: seq<nat>)
    ensures |terms| == n
  {
    if n == 0 then [] else PolyTerms(n - 1) + [Pow3(n - 1) % U64]
  }

  lemma {:induction false} PolyTermsAt(n: nat, k: nat)
    requires k < n
    ensures PolyTerms(n)[k] == Pow3(k) % U64
  {
    if k < n - 1 {
      PolyTermsAt(n - 1, k);
    }
  }

  /**
   * The power of three a stone on a playable point is worth in the fingerprint:
   * canonical index 0 is the most significant digit.
   */
  function Exponent(point: int, h: int, w: int): (e: nat)
    requires w > 0 && OnBoard(point, h, w)
    ensures e < h * w
  {
    CanonicalRoundTrip(point, h, w);
    h * w - 1 - PointToCanonical(point, w)
  }

  /** One step of the m_poly_terms loop: tripling the wrapped power wraps the next power. */
  lemma NextPolyTerm(i: nat)
    requires i >= 1
    ensures ((Pow3(i - 1) % U64) * 3) % U64 == Pow3(i) % U64
  {
    HornerStepMod(Pow3(i - 1), 0);
  }

  lemma HornerSnocMod(s: seq<int>, x: int)
    ensures ((PolySum(s) % U64) * 3 + x) % U64 == PolySum(s + [x]) % U64
  {
    PolySumSnoc(s, x);
    HornerStepMod(PolySum(s), x);
  }

  /** Raising one digit by d raises the value by d times the digit's weight. */
  lemma {:induction false} PolySumUpdate(s: seq<int>, k: int, d: int)
    requires 0 <= k < |s|
    ensures PolySum(s[k := s[k] + d]) == PolySum(s) + d * Pow3(|s| - 1 - k)
  {
    var t := s[k := s[k] + d];
    if k > 0 {
      assert t[1..] == s[1..][k - 1 := s[1..][k - 1] + d];
      PolySumUpdate(s[1..], k - 1, d);
    } else {
      assert t[1..] == s[1..];
    }
  }

  /** A digit sequence of length n has a value in [0, 3^n). */
  lemma {:induction false} PolySumBound(s: seq<int>)
    requires Digits(s)
    ensures 0 <= PolySum(s) < Pow3(|s|)
  {
    if s != [] {
      PolySumBound(s[1..]);
      assert s[0] * Pow3(|s| - 1) <= 2 * Pow3(|s| - 1);
    }
  }

  /** Base-3 representations are unique: equal values mean equal digit sequences. */
  lemma {:induction false} PolySumInjective(s: seq<int>, t: seq<int>)
    requires Digits(s) && Digits(t) && |s| == |t|
    requires PolySum(s) == PolySum(t)
    ensures s == t
  {
    if s != [] {
      var w := Pow3(|s| - 1);
      PolySumBound(s[1..]);
      PolySumBound(t[1..]);
      // the leading digit is the quotient by its weight, the rest the remainder
      DivModUnique(PolySum(s), w, s[0], PolySum(s[1..]));
      DivModUnique(PolySum(t), w, t[0], PolySum(t[1..]));
      PolySumInjective(s[1..], t[1..]);
      assert s == [s[0]] + s[1..];
      assert t == [t[0]] + t[1..];
    }
  }

  // ---------------------------------------------------------------------------
  // hash_func(Grid): the scan order of the loops

  /** The first `w` cells of rows |grid|-1 down to r, in that order. */
  function RowsFrom(grid: seq<seq<int>>, w: nat, r: nat): seq<int>
    requires r <= |grid| && forall i :: 0 <= i < |grid| ==> |grid[i]| >= w
    decreases |grid| - r
  {
    if r == |grid| then [] else RowsFrom(grid, w, r + 1) + grid[r][..w]
  }

  /** Board rows 1..n, each over columns 1..w: the canonical order of the points. */
  function BoardRows(h: int, w: int, cells: seq<int>, n: int): (s: seq<int>)
    requires h >= 0 && w >= 0 && |cells| == MaxPoint(h, w) && 0 <= n <= h
  {
    if n == 0 then [] else BoardRows(h, w, cells, n - 1) + TwoDRow(h, w, cells, n)
  }

  /** The cells of a board in canonical order. */
  function CanonCells(h: int, w: int, cells: seq<int>): seq<int>
    requires h >= 0 && w >= 0 && |cells| == MaxPoint(h, w)
  {
    BoardRows(h, w, cells, h)
  }

  /** The fingerprint of a board: hash_func applied to its twoD_board. */
  function FullHash(h: int, w: int, cells: seq<int>): nat
    requires h >= 0 && w >= 0 && |cells| == MaxPoint(h, w)
  {
    PolySum(CanonCells(h, w, cells)) % U64
  }

  /** hash_func scans twoD_board from its last row up: board row 1 first, i.e. canonical order. */
  lemma {:induction false} ScanTwoD(h: int, w: int, cells: seq<int>, r: nat)
    requires h >= 0 && w >= 0 && |cells| == MaxPoint(h, w) && r <= h
    ensures RowsFrom(TwoD(h, w, cells), w, r) == BoardRows(h, w, cells, h - r)
    decreases h - r
  {
    var grid := TwoD(h, w, cells);
    if r < h {
      ScanTwoD(h, w, cells, r + 1);
      assert grid[r][..w] == TwoDRow(h, w, cells, h - r);
    }
  }

  lemma {:induction false} BoardRowsLength(h: int, w: int, cells: seq<int>, n: int)
    requires h >= 0 && w >= 0 && |cells| == MaxPoint(h, w) && 0 <= n <= h
    ensures |BoardRows(h, w, cells, n)| == n * w
  {
    if n > 0 {
      BoardRowsLength(h, w, cells, n - 1);
    }
  }

  /** Position (r-1)*w + (c-1) of the canonical sequence holds the cell of row r, column c. */
  lemma BoardRowsAt(h: int, w: int, cells: seq<int>, n: int)
    requires h >= 0 && w >= 0 && |cells| == MaxPoint(h, w) && 0 <= n <= h
    ensures |BoardRows(h, w, cells, n)| == n * w
    ensures forall r, c {:trigger RowCell(h, w, cells, r, c)} :: 1 <= r <= n && 1 <= c <= w ==>
      BoardRows(h, w, cells, n)[(r - 1) * w + (c - 1)] == RowCell(h, w, cells, r, c)
  {
    BoardRowsLength(h, w, cells, n);
    forall r, c | 1 <= r <= n && 1 <= c <= w
      ensures BoardRows(h, w, cells, n)[(r - 1) * w + (c - 1)] == RowCell(h, w, cells, r, c)
    {
      BoardRowsCell(h, w, cells, n, r, c);
    }
  }

  /** The cell of row r, column c sits at position (r-1)*w + (c-1) of the first n rows. */
  lemma {:induction false} BoardRowsCell(h: int, w: int, cells: seq<int>, n: int, r: int, c: int)
    requires h >= 0 && w >= 0 && |cells| == MaxPoint(h, w) && 1 <= r <= n <= h && 1 <= c <= w
    ensures 0 <= (r - 1) * w + (c - 1) < |BoardRows(h, w, cells, n)|
    ensures BoardRows(h, w, cells, n)[(r - 1) * w + (c - 1)] == RowCell(h, w, cells, r, c)
    decreases n
  {
    BoardRowsLength(h, w, cells, n - 1);
    var prev, row := BoardRows(h, w, cells, n - 1), TwoDRow(h, w, cells, n);
    assert BoardRows(h, w, cells, n) == prev + row;
    if r < n {
      BoardRowsCell(h, w, cells, n - 1, r, c);
      AppendAtLeft(prev, row, (r - 1) * w + (c - 1));
    } else {
      assert (r - 1) * w == |prev|;
      AppendAtRight(prev, row, c - 1);
    }
  }

  lemma AppendAtLeft(a: seq<int>, b: seq<int>, i: int)
    requires 0 <= i < |a|
    ensures (a + b)[i] == a[i]
  {
  }

  lemma AppendAtRight(a: seq<int>, b: seq<int>, j: int)
    requires 0 <= j < |b|
    ensures (a + b)[|a| + j] == b[j]
  {
  }

  /** Index k of the canonical sequence holds the cell of canonical_point_to_point(k). */
  lemma CanonAt(h: int, w: int, cells: seq<int>, k: int)
    requires h >= 0 && w > 0 && |cells| == MaxPoint(h, w) && 0 <= k < h * w
    ensures |CanonCells(h, w, cells)| == h * w
    ensures 0 <= CanonicalToPoint(k, w) < |cells|
    ensures CanonCells(h, w, cells)[k] == cells[CanonicalToPoint(k, w)]
  {
    var q, m := k / w, k % w;
    QuotientBelow(k, w, h);
    SplitPoint(k, w);
    var r, c := q + 1, m + 1;
    assert w * q == (r - 1) * w;
    assert k == (r - 1) * w + (c - 1);
    BoardRowsAt(h, w, cells, h);
    assert CanonCells(h, w, cells)[k] == RowCell(h, w, cells, r, c);
    assert CanonicalToPoint(k, w) == r * Stride(w) + c;
    RowCellInside(h, w, r, c);
  }

  /** The canonical sequence of a well-formed board lists digits 0..2, one per point. */
  lemma CanonDigits(h: int, w: int, cells: seq<int>)
    requires WellFormed(h, w, cells) && w > 0
    ensures Digits(CanonCells(h, w, cells)) && |CanonCells(h, w, cells)| == h * w
  {
    BoardRowsAt(h, w, cells, h);
    var s := CanonCells(h, w, cells);
    forall k | 0 <= k < |s| ensures 0 <= s[k] <= 2 {
      CanonAt(h, w, cells, k);
      PointRoundTrip(k, h, w);
    }
  }

  /** Playing `v` on point p sets exactly the digit at p's canonical index. */
  lemma CanonUpdate(h: int, w: int, cells: seq<int>, p: int, v: int)
    requires h >= 0 && w > 0 && |cells| == MaxPoint(h, w) && OnBoard(p, h, w) && 0 <= p < |cells|
    ensures 0 <= PointToCanonical(p, w) < h * w
    ensures |CanonCells(h, w, cells)| == h * w
    ensures CanonCells(h, w, cells[p := v]) == CanonCells(h, w, cells)[PointToCanonical(p, w) := v]
  {
    var k0 := PointToCanonical(p, w);
    CanonicalRoundTrip(p, h, w);
    BoardRowsLength(h, w, cells, h);
    BoardRowsLength(h, w, cells[p := v], h);
    var s, s' := CanonCells(h, w, cells), CanonCells(h, w, cells[p := v]);
    forall k | 0 <= k < h * w ensures s'[k] == s[k0 := v][k] {
      CanonUpdateAt(h, w, cells, p, v, k);
    }
  }

  lemma CanonUpdateAt(h: int, w: int, cells: seq<int>, p: int, v: int, k: int)
    requires h >= 0 && w > 0 && |cells| == MaxPoint(h, w) && OnBoard(p, h, w) && 0 <= p < |cells| && 0 <= k < h * w
    ensures |CanonCells(h, w, cells)| == |CanonCells(h, w, cells[p := v])| == h * w
    ensures CanonCells(h, w, cells[p := v])[k]
         == if k == PointToCanonical(p, w) then v else CanonCells(h, w, cells)[k]
  {
    CanonAt(h, w, cells, k);
    CanonAt(h, w, cells[p := v], k);
    CanonPointIs(h, w, p, k);
  }

  /** Canonical index k names point p exactly when k is p's canonical index. */
  lemma CanonPointIs(h: int, w: int, p: int, k: int)
    requires w > 0 && OnBoard(p, h, w) && 0 <= k < h * w
    ensures CanonicalToPoint(k, w) == p <==> k == PointToCanonical(p, w)
  {
    CanonicalRoundTrip(p, h, w);
    PointRoundTrip(k, h, w);
  }

  /** Adding e modulo 2^64 may reduce each summand first. */
  lemma ModSum(a: int, d: int, e: int)
    ensures (a + d * e) % U64 == (a % U64 + d * (e % U64)) % U64
  {
    assert a + d * e == (a % U64 + d * (e % U64)) + U64 * (a / U64 + d * (e / U64));
    AddMulMod(a % U64 + d * (e % U64), a / U64 + d * (e / U64), U64);
  }

  /**
   * The incremental hash_func agrees with a full recompute: placing `color` on an
   * empty point adds color * 3^(N-1-canonical(p)) to the fingerprint, modulo 2^64.
   */
  lemma IncrementalAgrees(h: int, w: int, cells: seq<int>, p: int, color: int)
    requires h >= 0 && w > 0 && |cells| == MaxPoint(h, w) && OnBoard(p, h, w) && 0 <= p < |cells|
    requires cells[p] == EMPTY
    ensures FullHash(h, w, cells[p := color])
         == (FullHash(h, w, cells) + color * (Pow3(Exponent(p, h, w)) % U64)) % U64
  {
    var k := PointToCanonical(p, w);
    var s := CanonCells(h, w, cells);
    CanonPlace(h, w, cells, p, color);
    PlaceDigitMod(s, k, color);
  }

  /** Playing on the empty point p turns the 0 digit at p's canonical index into the stone's digit. */
  lemma CanonPlace(h: int, w: int, cells: seq<int>, p: int, color: int)
    requires h >= 0 && w > 0 && |cells| == MaxPoint(h, w) && OnBoard(p, h, w) && 0 <= p < |cells|
    requires cells[p] == EMPTY
    ensures 0 <= PointToCanonical(p, w) < |CanonCells(h, w, cells)|
    ensures CanonCells(h, w, cells)[PointToCanonical(p, w)] == 0
    ensures |CanonCells(h, w, cells)| - 1 - PointToCanonical(p, w) == Exponent(p, h, w)
    ensures CanonCells(h, w, cells[p := color]) == CanonCells(h, w, cells)[PointToCanonical(p, w) := color]
  {
    var k := PointToCanonical(p, w);
    CanonUpdate(h, w, cells, p, color);
    CanonicalRoundTrip(p, h, w);
    CanonAt(h, w, cells, k);
  }

  /** Writing d over a zero digit adds d times the digit's weight, modulo 2^64. */
  lemma PlaceDigitMod(s: seq<int>, k: int, d: int)
    requires 0 <= k < |s| && s[k] == 0
    ensures PolySum(s[k := d]) % U64 == (PolySum(s) % U64 + d * (Pow3(|s| - 1 - k) % U64)) % U64
  {
    assert s[k := d] == s[k := s[k] + d];
    PolySumUpdate(s, k, d);
    ModSum(PolySum(s), d, Pow3(|s| - 1 - k));
  }

  /** 3^25 < 2^40: the fingerprint of a board of at most 25 points never wraps and fits the LCG range. */
  lemma SmallBoardFits(s: seq<int>)
    requires Digits(s) && |s| <= 25
    ensures 0 <= PolySum(s) < LCG_M
    ensures PolySum(s) % U64 == PolySum(s)
  {
    PolySumBound(s);
    Pow3Mono(|s|, 25);
    Pow3Of25();
  }

  lemma {:induction false} Pow3Add(a: nat, b: nat)
    ensures Pow3(a + b) == Pow3(a) * Pow3(b)
    decreases b
  {
    if b > 0 {
      Pow3Add(a, b - 1);
    }
  }

  lemma Pow3Of25()
    ensures Pow3(25) == 847288609443
  {
    assert Pow3(5) == 243 by {
      assert Pow3(1) == 3 && Pow3(2) == 9 && Pow3(3) == 27 && Pow3(4) == 81;
    }
    Pow3Add(5, 5);
    Pow3Add(10, 10);
    Pow3Add(20, 5);
  }

  lemma {:induction false} Pow3Mono(a: nat, b: nat)
    requires a <= b
    ensures Pow3(a) <= Pow3(b)
    decreases b - a
  {
    if a < b {
      Pow3Mono(a, b - 1);
    }
  }

  // ---------------------------------------------------------------------------
  // linear_congruence_func

  /** linear_congruence_func: (LCG_A * hashcode) computed in uint64_t, then reduced modulo LCG_M. */
  function Lcg(hashcode: nat): (r: nat)
    ensures r < LCG_M
  {
    ((LCG_A * hashcode) % U64) % LCG_M
  }

  /** The multiplicative inverse of LCG_A modulo 2^40. */
  const LCG_INV: nat := 467584019141

  lemma MulModLeft(a: int, b: int, m: int)
    requires m > 0
    ensures (a * (b % m)) % m == (a * b) % m
  {
    assert a * b == a * (b % m) + m * (a * (b / m));
    AddMulMod(a * (b % m), a * (b / m), m);
  }

  /** The uint64_t wrap does not matter: 2^40 divides 2^64. */
  lemma LcgIsMod(hashcode: nat)
    ensures Lcg(hashcode) == (LCG_A * hashcode) % LCG_M
  {
    ModMod(LCG_A * hashcode, LCG_M, 0x100_0000);
  }

  /** The mixing step has an inverse on [0, 2^40): LCG_A is odd, so multiplying by it is a bijection. */
  lemma LcgInverse(hashcode: nat)
    requires hashcode < LCG_M
    ensures (LCG_INV * Lcg(hashcode)) % LCG_M == hashcode
  {
    LcgIsMod(hashcode);
    MulModLeft(LCG_INV, LCG_A * hashcode, LCG_M);
    assert LCG_INV * LCG_A == 1 + LCG_M * 441;
    assert LCG_INV * (LCG_A * hashcode) == hashcode + LCG_M * (441 * hashcode);
    AddMulMod(hashcode, 441 * hashcode, LCG_M);
  }

  lemma LcgInjective(h1: nat, h2: nat)
    requires h1 < LCG_M && h2 < LCG_M && Lcg(h1) == Lcg(h2)
    ensures h1 == h2
  {
    LcgInverse(h1);
    LcgInverse(h2);
  }

  /**
   * On boards of at most 25 points the mixed key identifies the position: two boards
   * of the same size whose points hold EMPTY, BLACK or WHITE and whose keys agree
   * have the same cells.
   */
  lemma KeyIdentifiesPosition(h: int, w: int, c1: seq<int>, c2: seq<int>)
    requires w > 0 && h * w <= 25 && WellFormed(h, w, c1) && WellFormed(h, w, c2)
    requires Lcg(FullHash(h, w, c1)) == Lcg(FullHash(h, w, c2))
    ensures c1 == c2
  {
    CanonDigits(h, w, c1);
    CanonDigits(h, w, c2);
    var s1, s2 := CanonCells(h, w, c1), CanonCells(h, w, c2);
    SmallBoardFits(s1);
    SmallBoardFits(s2);
    LcgInjective(FullHash(h, w, c1), FullHash(h, w, c2));
    PolySumInjective(s1, s2);
    forall q | 0 <= q < |c1| ensures c1[q] == c2[q] {
      if OnBoard(q, h, w) {
        var k := PointToCanonical(q, w);
        CanonicalRoundTrip(q, h, w);
        CanonAt(h, w, c1, k);
        CanonAt(h, w, c2, k);
      }
    }
  }
}
