/**
 * Coordinate conversions and small helpers shared by the board, the hash table and
 * the command layer (GoBoardUtil in board_util.cpp).
 *
 * A board of `h` rows and `w` columns is stored as a padded one-dimensional vector
 * whose row stride is NS = w + 1: the point of row r (1..h) and column c (1..w) is
 * r * NS + c, column 0 of every row and rows 0 and h + 1 are border cells.
 * The canonical index of an on-board point is (r - 1) * w + (c - 1), in [0, h * w).
 *
 * The source computes with C++ `int`, whose `/` and `%` truncate toward zero;
 * Quot and Rem model them (Dafny's own operators are Euclidean).
 */
module BoardUtil {

  const EMPTY: int := 0
  const BLACK: int := 1
  const WHITE: int := 2
  const BORDER: int := 3
  const PASS: int := -1

  datatype Option<T> = None | Some(value: T)

  /** C++ integer division by a positive divisor: truncates toward zero. */
  function Quot(a: int, b: int): (q: int)
    requires b > 0
    ensures a >= 0 ==> q == a / b
    ensures a < 0 ==> q == -((-a) / b)
  {
    if a >= 0 then a / b else -((-a) / b)
  }

  /** C++ `%` by a positive divisor: the remainder takes the sign of the dividend. */
  function Rem(a: int, b: int): (r: int)
    requires b > 0
    ensures a == b * Quot(a, b) + r
    ensures a >= 0 ==> r == a % b
    ensures -b < r < b
  {
    if a >= 0 then a % b else -((-a) % b)
  }

  /** The row stride of the padded board. */
  function Stride(w: int): int { w + 1 }

  /** `p` is a playable point of an h x w board: row 1..h, column 1..w. */
  predicate OnBoard(p: int, h: int, w: int)
    requires w >= 0
  {
    p >= 0 && 1 <= p / Stride(w) <= h && 1 <= p % Stride(w) <= w
  }

  /** point_to_canonical_point */
  function PointToCanonical(point: int, w: int): int
    requires w >= 0
  {
    var ns := Stride(w);
    (Quot(point, ns) - 1) * w + (Rem(point, ns) - 1)
  }

  /** canonical_point_to_point */
  function CanonicalToPoint(cp: int, w: int): int
    requires w > 0
  {
    (Quot(cp, w) + 1) * Stride(w) + (Rem(cp, w) + 1)
  }

  /** point_to_coord: (row, column) of a point. */
  function PointToCoord(point: int, w: int): (int, int)
    requires w >= 0
  {
    (Quot(point, Stride(w)), Rem(point, Stride(w)))
  }

  /** coord_to_point */
  function CoordToPoint(row: int, col: int, w: int): int
  {
    Stride(w) * row + col
  }

  /** opponent: BLACK + WHITE - color. */
  function Opponent(color: int): (o: int)
    ensures color == BLACK ==> o == WHITE
    ensures color == WHITE ==> o == BLACK
    ensures BLACK + WHITE - o == color
  {
    BLACK + WHITE - color
  }

  lemma DivModOf(q: int, r: int, b: int)
    requires b > 0 && q >= 0 && 0 <= r < b
    ensures (q * b + r) / b == q && (q * b + r) % b == r
  {
    var n := q * b + r;
    assert n == b * (n / b) + n % b;
    var d := n / b - q;
    assert b * d == r - n % b;
  }

  /** An on-board point maps to a canonical index in [0, h*w) and back to itself. */
  lemma CanonicalRoundTrip(p: int, h: int, w: int)
    requires w > 0 && OnBoard(p, h, w)
    ensures 0 <= PointToCanonical(p, w) < h * w
    ensures CanonicalToPoint(PointToCanonical(p, w), w) == p
  {
    var ns := Stride(w);
    var q := p / ns;
    var r, c := q - 1, p % ns - 1;
    assert PointToCanonical(p, w) == r * w + c;
    ProductBounds(w, h - 1 - r);
    ProductBounds(w, r);
    assert w * (h - 1 - r) == w * h - w - w * r;
    assert r * w == w * r && h * w == w * h;
    DivModOf(r, c, w);
    assert p == ns * q + p % ns;
    assert q * ns == ns * q;
  }

  /** Every canonical index of an h x w board names an on-board point and comes back unchanged. */
  lemma PointRoundTrip(cp: int, h: int, w: int)
    requires w > 0 && 0 <= cp < h * w
    ensures OnBoard(CanonicalToPoint(cp, w), h, w)
    ensures PointToCanonical(CanonicalToPoint(cp, w), w) == cp
  {
    var ns := Stride(w);
    var r, c := cp / w, cp % w;
    QuotientBelow(cp, w, h);
    var p := (r + 1) * ns + (c + 1);
    assert CanonicalToPoint(cp, w) == p;
    DivModOf(r + 1, c + 1, ns);
    assert OnBoard(p, h, w);
    assert PointToCanonical(p, w) == r * w + c;
    SplitPoint(cp, w);
    assert r * w == w * r;
  }

  /** A non-negative number below n * b has a quotient by b in [0, n). */
  lemma QuotientBelow(a: int, b: int, n: int)
    requires b > 0 && 0 <= a < n * b
    ensures 0 <= a / b < n
  {
    var q, r := a / b, a % b;
    assert a == b * q + r && 0 <= r < b;
    ProductBounds(b, q);
    ProductBounds(b, n - q);
    assert b * (n - q) == n * b - b * q;
  }

  /** The canonical index of an on-board point and its row and column. */
  lemma CanonicalOfCoord(r: int, c: int, h: int, w: int)
    requires w > 0 && 1 <= r <= h && 1 <= c <= w
    ensures OnBoard(r * Stride(w) + c, h, w)
    ensures PointToCanonical(r * Stride(w) + c, w) == (r - 1) * w + (c - 1)
  {
    DivModOf(r, c, Stride(w));
  }

  /** coord_to_point inverts point_to_coord on every point. */
  lemma CoordRoundTrip(p: int, w: int)
    requires w >= 0
    ensures CoordToPoint(PointToCoord(p, w).0, PointToCoord(p, w).1, w) == p
  {
  }

  /** point_to_coord inverts coord_to_point whenever the column lies inside the stride. */
  lemma CoordRoundTripBack(row: int, col: int, w: int)
    requires w >= 0 && row >= 0 && 0 <= col < Stride(w)
    ensures PointToCoord(CoordToPoint(row, col, w), w) == (row, col)
  {
    DivModOf(row, col, Stride(w));
    assert Stride(w) * row == row * Stride(w);
  }

  /** The worked examples of the header comment for a board of 3 rows and 5 columns. */
  lemma HeaderExamples()
    ensures PointToCanonical(15, 5) == 7 && CanonicalToPoint(7, 5) == 15
    ensures PointToCoord(15, 5) == (2, 3) && CoordToPoint(2, 3, 5) == 15
    ensures PointToString(15, 5) == "C2" && StringToPoint("C2", 5) == Some(15)
  {
    assert Quot(15, 6) == 2 && Rem(15, 6) == 3;
    assert NatToString(2) == "2";
    assert IntToString(2) == "2";
    assert PointToString(15, 5) == ['C'] + "2";
    StoiOfNatToString(2);
    assert "C2"[1..] == "2";
    assert SignedChar('C') == 67;
  }

  // ---------------------------------------------------------------------------
  // Decimal text: std::to_string and std::stoi

  function DigitChar(d: int): char
    requires 0 <= d < 10
  {
    (48 + d) as char
  }

  predicate IsDigit(ch: char) { 48 <= ch as int <= 57 }

  /** std::to_string of a non-negative int. */
  function NatToString(n: nat): (s: string)
    ensures |s| >= 1 && forall i :: 0 <= i < |s| ==> IsDigit(s[i])
    decreases n
  {
    if n < 10 then [DigitChar(n)] else NatToString(n / 10) + [DigitChar(n % 10)]
  }

  /** std::to_string of an int. */
  function IntToString(n: int): string
  {
    if n < 0 then "-" + NatToString(-n) else NatToString(n)
  }

  function DigitValue(ch: char): nat
    requires IsDigit(ch)
  {
    ch as int - 48
  }

  /** The value of a string of decimal digits. */
  function DigitsValue(s: string): nat
    requires forall i :: 0 <= i < |s| ==> IsDigit(s[i])
  {
    if s == [] then 0 else 10 * DigitsValue(s[..|s| - 1]) + DigitValue(s[|s| - 1])
  }

  /** Length of the longest prefix of `s` made of decimal digits. */
  function DigitsPrefix(s: string): (n: nat)
    ensures n <= |s| && forall i :: 0 <= i < n ==> IsDigit(s[i])
    ensures n < |s| ==> !IsDigit(s[n])
  {
    if s == [] || !IsDigit(s[0]) then 0 else 1 + DigitsPrefix(s[1..])
  }

  predicate IsSpace(ch: char)
  {
    ch == ' ' || ch == '\t' || ch == '\n' || ch == '\r' || ch as int == 11 || ch as int == 12
  }

  function SkipSpaces(s: string): (t: string)
    ensures |t| <= |s| && t == s[|s| - |t|..]
    ensures t == [] || !IsSpace(t[0])
  {
    if s != [] && IsSpace(s[0]) then SkipSpaces(s[1..]) else s
  }

  const INT_MIN: int := -0x8000_0000
  const INT_MAX: int := 0x7fff_ffff

  /**
   * std::stoi: leading white space, an optional sign, then the longest run of digits;
   * the rest is ignored. None stands for the exceptions it throws: no digits
   * (invalid_argument) or a value outside the 32-bit `int` range (out_of_range).
   */
  function Stoi(s: string): (r: Option<int>)
    ensures r.Some? ==> INT_MIN <= r.value <= INT_MAX
  {
    var t := SkipSpaces(s);
    var neg := t != [] && t[0] == '-';
    var u := if t != [] && (t[0] == '-' || t[0] == '+') then t[1..] else t;
    var n := DigitsPrefix(u);
    if n == 0 then None
    else
      var mag: int := DigitsValue(u[..n]);
      var v := if neg then -mag else mag;
      if INT_MIN <= v <= INT_MAX then Some(v) else None
  }

  lemma DigitsPrefixOf(s: string)
    requires forall i :: 0 <= i < |s| ==> IsDigit(s[i])
    ensures DigitsPrefix(s) == |s|
  {
    if s != [] { DigitsPrefixOf(s[1..]); }
  }

  lemma {:induction false} NatToStringValue(n: nat)
    ensures DigitsValue(NatToString(n)) == n
    decreases n
  {
    if n >= 10 {
      NatToStringValue(n / 10);
      var s := NatToString(n);
      assert s[..|s| - 1] == NatToString(n / 10);
    }
  }

  /** std::stoi reads back what std::to_string wrote, for every non-negative int. */
  lemma StoiOfNatToString(n: nat)
    requires n <= INT_MAX
    ensures Stoi(NatToString(n)) == Some(n)
  {
    var s := NatToString(n);
    assert IsDigit(s[0]);
    assert !IsSpace(s[0]);
    assert SkipSpaces(s) == s;
    assert s[0] as int != 45 && s[0] as int != 43;
    DigitsPrefixOf(s);
    assert s[..|s|] == s;
    NatToStringValue(n);
    assert DigitsValue(s) == n;
  }

  // ---------------------------------------------------------------------------
  // Textual points: "C2" and friends

  /** The value a C++ `char` (signed, 8 bits) holds for a byte. */
  function SignedChar(ch: char): int
  {
    var b := ch as int % 256;
    if b < 128 then b else b - 256
  }

  /** point_to_string: the column letter 'A' + col - 1 (an 8-bit char) followed by the row number. */
  function PointToString(point: int, w: int): string
    requires w >= 0
  {
    var row := Quot(point, Stride(w));
    var col := Rem(point, Stride(w));
    [((64 + col) % 256) as char] + IntToString(row)
  }

  /**
   * string_to_point: the row is std::stoi of everything after the first character,
   * the column is that first character minus 64. None stands for what has no defined
   * result in the source: an empty string (substr throws), no digits or a row out of
   * range (stoi throws), or a point that overflows `int`.
   */
  function StringToPoint(s: string, w: int): (r: Option<int>)
    requires w >= 0
    ensures r.Some? ==> |s| >= 1 && Stoi(s[1..]).Some?
    ensures r.Some? ==> r.value == Stride(w) * Stoi(s[1..]).value + (SignedChar(s[0]) - 64)
  {
    if s == [] then None
    else
      match Stoi(s[1..])
      case None => None
      case Some(row) =>
        var p := Stride(w) * row + (SignedChar(s[0]) - 64);
        if INT_MIN <= p <= INT_MAX then Some(p) else None
  }

  /**
   * string_to_point reads back point_to_string for every on-board point whose
   * column letter stays within 7-bit ASCII (at most 63 columns; 'A'..'Z' for w <= 26).
   */
  lemma StringPointRoundTrip(p: int, h: int, w: int)
    requires 0 < w <= 63 && OnBoard(p, h, w) && p <= INT_MAX
    ensures StringToPoint(PointToString(p, w), w) == Some(p)
  {
    var ns := Stride(w);
    var row, col := p / ns, p % ns;
    SplitPoint(p, ns);
    var s := PointToString(p, w);
    PointText(p, w);
    assert s[1..] == NatToString(row);
    StoiOfNatToString(row);
    assert Stoi(s[1..]) == Some(row);
    assert SignedChar(s[0]) == 64 + col;
  }

  /** A non-negative dividend is its quotient times the divisor plus its remainder. */
  lemma SplitPoint(p: int, ns: int)
    requires p >= 0 && ns > 0
    ensures p == ns * (p / ns) + p % ns && 0 <= p / ns <= p
  {
    var q, r := p / ns, p % ns;
    assert p == ns * q + r && 0 <= r < ns;
    ProductBounds(ns, q);
  }

  /** A positive multiplier keeps a non-negative factor at least as large and a negative one negative. */
  lemma {:induction false} ProductBounds(a: int, b: int)
    requires a >= 1
    ensures b >= 0 ==> a * b >= b
    ensures b < 0 ==> a * b <= -a
    decreases a
  {
    if a > 1 {
      ProductBounds(a - 1, b);
      assert a * b == (a - 1) * b + b;
    }
  }

  /** The text of an on-board point: its column letter, then the digits of its row. */
  lemma PointText(p: int, w: int)
    requires 0 < w && p >= 0
    ensures PointToString(p, w) == [((64 + p % Stride(w)) % 256) as char] + NatToString(p / Stride(w))
  {
    var ns := Stride(w);
    var row, col := Quot(p, ns), Rem(p, ns);
    SplitPoint(p, ns);
    assert row == p / ns;
    assert col == p % ns;
    assert IntToString(row) == NatToString(row);
  }

  // ---------------------------------------------------------------------------
  // get_twoD_board

  /** One cell as get_twoD_board writes it: its number followed by a single space. */
  function CellText(v: int): string
  {
    IntToString(v) + [' ']
  }

  /** The text of the first `n` cells of a grid row. */
  function RowText(row: seq<int>, n: nat): string
    requires n <= |row|
  {
    if n == 0 then "" else RowText(row, n - 1) + CellText(row[n - 1])
  }

  /** Rectangular enough for get_twoD_board: at least one row, none shorter than the first. */
  predicate GridReadable(grid: seq<seq<int>>)
  {
    |grid| >= 1 && forall i :: 0 <= i < |grid| ==> |grid[i]| >= |grid[0]|
  }

  /** The first `k` rows, separated by newlines, with no newline after the last. */
  function GridText(grid: seq<seq<int>>, k: nat): string
    requires GridReadable(grid) && k <= |grid|
  {
    if k == 0 then ""
    else if k == 1 then RowText(grid[0], |grid[0]|)
    else GridText(grid, k - 1) + "\n" + RowText(grid[k - 1], |grid[0]|)
  }

  /** How many times `ch` occurs in `s`. */
  function CountChar(s: string, ch: char): nat
  {
    multiset(s)[ch]
  }

  lemma CountCharAppend(s: string, t: string, ch: char)
    ensures CountChar(s + t, ch) == CountChar(s, ch) + CountChar(t, ch)
  {
    assert multiset(s + t) == multiset(s) + multiset(t);
  }

  lemma RowTextShape(row: seq<int>, n: nat)
    requires n <= |row|
    ensures CountChar(RowText(row, n), '\n') == 0
    ensures n > 0 ==> |RowText(row, n)| > 0 && RowText(row, n)[|RowText(row, n)| - 1] == ' '
  {
    RowTextNoNewline(row, n);
    AbsentNoCount(RowText(row, n), '\n');
    if n > 0 {
      var a, b := RowText(row, n - 1), CellText(row[n - 1]);
      CellTextShape(row[n - 1]);
      LastOfAppend(a, b);
    }
  }

  lemma {:induction false} RowTextNoNewline(row: seq<int>, n: nat)
    requires n <= |row|
    ensures forall k :: 0 <= k <= n ==> '\n' !in RowText(row, k)
  {
    if n > 0 {
      RowTextNoNewline(row, n - 1);
      NoNewlineStep(row, n);
    }
  }

  /** Appending one more cell to a newline-free row text keeps it free of newlines. */
  lemma NoNewlineStep(row: seq<int>, n: nat)
    requires 0 < n <= |row| && '\n' !in RowText(row, n - 1)
    ensures '\n' !in RowText(row, n)
  {
    IntTextHasNoNewline(row[n - 1]);
    RowTextLast(row, n);
  }

  lemma RowTextLast(row: seq<int>, n: nat)
    requires 0 < n <= |row|
    ensures RowText(row, n) == RowText(row, n - 1) + CellText(row[n - 1])
  {
  }

  lemma LastOfAppend(a: string, b: string)
    requires |b| > 0
    ensures |a + b| > 0 && (a + b)[|a + b| - 1] == b[|b| - 1]
  {
  }

  /** One cell's text holds no newline and ends with its space. */
  lemma CellTextShape(v: int)
    ensures '\n' !in CellText(v)
    ensures |CellText(v)| > 0 && CellText(v)[|CellText(v)| - 1] == ' '
  {
    IntTextHasNoNewline(v);
  }

  lemma IntTextHasNoNewline(n: int)
    ensures '\n' !in IntToString(n)
  {
    var s := IntToString(n);
    forall i | 0 <= i < |s| ensures s[i] != '\n' {
      if n < 0 { assert s == "-" + NatToString(-n); if i > 0 { assert s[i] == NatToString(-n)[i - 1]; } }
    }
  }

  lemma AbsentNoCount(s: string, ch: char)
    requires ch !in s
    ensures CountChar(s, ch) == 0
  {
  }

  /**
   * The rendered board has exactly one newline between consecutive rows and none at
   * the end: when rows are non-empty the text ends with the space after the last cell.
   */
  lemma {:induction false} GridTextShape(grid: seq<seq<int>>, k: nat)
    requires GridReadable(grid) && 1 <= k <= |grid|
    ensures CountChar(GridText(grid, k), '\n') == k - 1
    ensures |grid[0]| > 0 ==> var s := GridText(grid, k); |s| > 0 && s[|s| - 1] == ' '
  {
    RowTextShape(grid[k - 1], |grid[0]|);
    if k > 1 {
      GridTextShape(grid, k - 1);
      var a, b := GridText(grid, k - 1), RowText(grid[k - 1], |grid[0]|);
      CountCharAppend(a, "\n", '\n');
      CountCharAppend(a + "\n", b, '\n');
      assert CountChar("\n", '\n') == 1;
    }
  }

  /** What has been written after `i` complete rows: a newline follows every row but the last. */
  function RowsWritten(grid: seq<seq<int>>, i: nat): string
    requires GridReadable(grid) && i <= |grid|
  {
    GridText(grid, i) + (if 0 < i < |grid| then "\n" else "")
  }

  lemma RowsWrittenNext(grid: seq<seq<int>>, i: nat, row: string)
    requires GridReadable(grid) && i < |grid|
    requires row == RowText(grid[i], |grid[0]|)
    ensures RowsWritten(grid, i + 1)
         == RowsWritten(grid, i) + row + (if i < |grid| - 1 then "\n" else "")
  {
    var nl := "\n";
    if i == 0 {
      assert GridText(grid, 1) == row;
      assert RowsWritten(grid, 0) == "";
    } else {
      assert GridText(grid, i + 1) == GridText(grid, i) + nl + row;
      assert RowsWritten(grid, i) == GridText(grid, i) + nl;
    }
  }

  /** The inner loop of get_twoD_board: appends the first `numCols` cells of a row. */
  method AppendRow(s0: string, row: seq<int>, numCols: nat) returns (s: string)
    requires numCols <= |row|
    ensures s == s0 + RowText(row, numCols)
  {
    s := s0;
    var j := 0;
    AppendEmpty(s0, RowText(row, 0));
    while j < numCols
      invariant 0 <= j <= numCols
      invariant s == s0 + RowText(row, j)
    {
      var cell := CellText(row[j]);
      AppendCell(s0, s, row, j);
      s := s + cell;
      j := j + 1;
    }
  }

  /** One step of AppendRow: appending cell j extends the text of the first j cells by one. */
  lemma AppendCell(s0: string, s: string, row: seq<int>, j: nat)
    requires j < |row| && s == s0 + RowText(row, j)
    ensures s + CellText(row[j]) == s0 + RowText(row, j + 1)
  {
    RowTextLast(row, j + 1);
    AppendAssoc(s0, RowText(row, j), CellText(row[j]));
  }

  lemma AppendEmpty(a: string, b: string)
    requires b == []
    ensures a + b == a
  {
  }

  lemma AppendAssoc(a: string, b: string, c: string)
    ensures (a + b) + c == a + (b + c)
  {
  }

  /** get_twoD_board: renders a grid row by row. */
  method GetTwoDBoard(grid: seq<seq<int>>) returns (s: string)
    requires GridReadable(grid)
    ensures s == GridText(grid, |grid|)
  {
    s := "";
    var numRows, numCols := |grid|, |grid[0]|;
    var i := 0;
    while i < numRows
      invariant 0 <= i <= numRows
      invariant s == RowsWritten(grid, i)
    {
      s := AppendRow(s, grid[i], numCols);
      RowsWrittenNext(grid, i, RowText(grid[i], numCols));
      if i < numRows - 1 {
        s := s + "\n";
      }
      i := i + 1;
    }
  }
}
