/**
 * The grid as the puzzle stores it: a row-major string of n*n characters,
 * '0', '1' or 'X' (unknown). Cell (r, c) lives at index r*n + c.
 */
module Grid {

  /** The number of unknown cells. */
  function XCount(g: string): nat
  {
    if g == [] then 0 else (if g[0] == 'X' then 1 else 0) + XCount(g[1..])
  }

  /**
   * h keeps every known cell of g; an unknown cell of g may stay unknown or
   * become '0' or '1'.
   */
  predicate Refines(g: string, h: string)
  {
    |h| == |g| &&
    forall k :: 0 <= k < |g| ==> h[k] == g[k] || (g[k] == 'X' && (h[k] == '0' || h[k] == '1'))
  }

  lemma RefinesTransitive(f: string, g: string, h: string)
    requires Refines(f, g) && Refines(g, h)
    ensures Refines(f, h)
  {
  }

  /** Filling in cells never adds unknowns. */
  lemma {:induction false} RefinesXCount(g: string, h: string)
    requires Refines(g, h)
    ensures XCount(h) <= XCount(g)
    ensures XCount(h) == XCount(g) ==> h == g
  {
    if g != [] {
      assert Refines(g[1..], h[1..]);
      RefinesXCount(g[1..], h[1..]);
      assert h == [h[0]] + h[1..] && g == [g[0]] + g[1..];
    }
  }

  /** Setting one unknown cell to a known value removes exactly one unknown. */
  lemma {:induction false} XCountSet(g: string, k: nat, v: char)
    requires k < |g| && g[k] == 'X' && v != 'X'
    ensures XCount(g[k := v]) + 1 == XCount(g)
  {
    if k > 0 {
      XCountSet(g[1..], k - 1, v);
      assert g[k := v][1..] == g[1..][k - 1 := v];
    }
  }

  /** Setting one unknown cell to a digit refines the grid. */
  lemma RefinesSet(g: string, k: nat, v: char)
    requires k < |g| && g[k] == 'X' && (v == '0' || v == '1')
    ensures Refines(g, g[k := v])
  {
  }

  lemma MulMono(a: nat, b: nat, n: nat)
    requires a <= b
    ensures a * n <= b * n
  {
    assert b * n == a * n + (b - a) * n;
  }

  lemma MulSucc(a: nat, n: nat)
    ensures (a + 1) * n == a * n + n
  {
  }

  lemma IndexBound(r: nat, c: nat, n: nat, m: nat)
    requires r < m && c < n
    ensures r * n + c < m * n
  {
    MulMono(r + 1, m, n);
  }

  /**
   * The flat index r*n + c, as a natural number. Obtaining it from a lemma
   * keeps the product out of the caller's context.
   */
  lemma FlatIndex(r: nat, c: nat, n: nat) returns (t: nat)
    ensures t == r * n + c
  {
    t := r * n + c;
  }

  /** Every flat index below m*n is r*n + c for exactly one r < m, c < n. */
  lemma {:induction false} Split(t: nat, n: nat, m: nat) returns (r: nat, c: nat)
    requires t < m * n
    ensures r < m && c < n && t == r * n + c
  {
    assert m * n == (m - 1) * n + n;
    if t < (m - 1) * n {
      r, c := Split(t, n, m - 1);
    } else {
      r, c := m - 1, t - (m - 1) * n;
    }
  }

  lemma IndexInjective(r1: nat, c1: nat, r2: nat, c2: nat, n: nat)
    requires c1 < n && c2 < n && r1 * n + c1 == r2 * n + c2
    ensures r1 == r2 && c1 == c2
  {
    if r1 < r2 {
      IndexBound(r1, c1, n, r2);
    } else if r2 < r1 {
      IndexBound(r2, c2, n, r1);
    }
  }

  /** The cell at row r, column c (__getitem__ with a pair of integers). */
  function Cell(g: string, n: nat, r: nat, c: nat): char
    requires |g| == n * n && r < n && c < n
  {
    IndexBound(r, c, n, n);
    g[r * n + c]
  }

  /**
   * __getitem__ with a pair of integers as the source computes it: the
   * column-c characters of every row, then the one of row r. It is the cell
   * at (r, c), the same as taking row r and then its character c.
   */
  function GetItem(g: string, n: nat, r: nat, c: nat): (ch: char)
    requires |g| == n * n && r < n && c < n
    ensures ch == Cell(g, n, r, c) && ch == Row(g, n, r)[c]
  {
    Column(g, n, c)[r]
  }

  /** Two grids of the same size with the same cells are the same string. */
  lemma CellsDetermineGrid(g: string, h: string, n: nat)
    requires |g| == n * n && |h| == n * n
    requires forall r, c :: 0 <= r < n && 0 <= c < n ==> Cell(g, n, r, c) == Cell(h, n, r, c)
    ensures g == h
  {
    forall t | 0 <= t < |g|
      ensures g[t] == h[t]
    {
      var r, c := Split(t, n, n);
      assert Cell(g, n, r, c) == Cell(h, n, r, c);
    }
  }

  /** Row r: the n characters starting at r*n (_getrow). */
  function Row(g: string, n: nat, r: nat): (line: string)
    requires |g| == n * n && r < n
    ensures |line| == n
    ensures forall c :: 0 <= c < n ==> line[c] == Cell(g, n, r, c)
  {
    MulMono(r + 1, n, n);
    g[r * n .. (r + 1) * n]
  }

  /** Python's extended slice s[::n]: the characters at 0, n, 2n, ... */
  function Stride(s: string, n: nat): string
    requires n > 0
    decreases |s|
  {
    if s == [] then [] else [s[0]] + (if |s| <= n then [] else Stride(s[n..], n))
  }

  lemma {:induction false} StrideLength(s: string, n: nat, m: nat)
    requires n > 0 && m > 0 && (m - 1) * n < |s| <= m * n
    ensures |Stride(s, n)| == m
  {
    if m > 1 {
      MulMono(1, m - 1, n);
      assert m * n == (m - 1) * n + n;
      assert (m - 2) * n + n == (m - 1) * n;
      StrideLength(s[n..], n, m - 1);
    }
  }

  /** r * n as repeated addition, so that inductions over it stay linear. */
  function Times(r: nat, n: nat): nat
  {
    if r == 0 then 0 else Times(r - 1, n) + n
  }

  lemma {:induction false} TimesIsProduct(r: nat, n: nat)
    ensures Times(r, n) == r * n
  {
    if r > 0 {
      TimesIsProduct(r - 1, n);
      MulSucc(r - 1, n);
    }
  }

  lemma {:induction false} StrideElementTimes(s: string, n: nat, r: nat)
    requires n > 0 && Times(r, n) < |s|
    ensures r < |Stride(s, n)| && Stride(s, n)[r] == s[Times(r, n)]
  {
    if r > 0 {
      StrideElementTimes(s[n..], n, r - 1);
    }
  }

  lemma StrideElement(s: string, n: nat, r: nat)
    requires n > 0 && r * n < |s|
    ensures r < |Stride(s, n)| && Stride(s, n)[r] == s[r * n]
  {
    TimesIsProduct(r, n);
    StrideElementTimes(s, n, r);
  }

  /** Column c: every n-th character starting at c (_getcolumn). */
  function Column(g: string, n: nat, c: nat): (line: string)
    requires |g| == n * n && c < n
    ensures |line| == n
    ensures forall r :: 0 <= r < n ==> line[r] == Cell(g, n, r, c)
  {
    assert n * n == (n - 1) * n + n;
    StrideLength(g[c..], n, n);
    forall r | 0 <= r < n
      ensures Stride(g[c..], n)[r] == Cell(g, n, r, c)
    {
      IndexBound(r, c, n, n);
      StrideElement(g[c..], n, r);
    }
    Stride(g[c..], n)
  }

  /** Consistency of the two line accessors with each other. */
  lemma RowColumnCross(g: string, n: nat, r: nat, c: nat)
    requires |g| == n * n && r < n && c < n
    ensures Row(g, n, r)[c] == Column(g, n, c)[r]
  {
  }

  /** The grid with cell (r, c) replaced by v (__setitem__). */
  function WithCell(g: string, n: nat, r: nat, c: nat, v: char): (h: string)
    requires |g| == n * n && r < n && c < n
    ensures |h| == n * n
    ensures r * n + c < |g| && h == g[r * n + c := v]
    ensures forall r', c' :: 0 <= r' < n && 0 <= c' < n ==>
      Cell(h, n, r', c') == if r' == r && c' == c then v else Cell(g, n, r', c')
  {
    IndexBound(r, c, n, n);
    var h := g[..r * n + c] + [v] + g[r * n + c + 1..];
    assert h == g[r * n + c := v];
    forall r', c' | 0 <= r' < n && 0 <= c' < n
      ensures Cell(h, n, r', c') == if r' == r && c' == c then v else Cell(g, n, r', c')
    {
      IndexBound(r', c', n, n);
      if r' * n + c' == r * n + c {
        IndexInjective(r', c', r, c, n);
      }
    }
    h
  }

  /** Filling one unknown cell with a digit refines the grid and removes one unknown. */
  lemma FillCell(g: string, n: nat, r: nat, c: nat, v: char)
    requires |g| == n * n && r < n && c < n
    requires Cell(g, n, r, c) == 'X' && (v == '0' || v == '1')
    ensures Refines(g, WithCell(g, n, r, c, v))
    ensures XCount(WithCell(g, n, r, c, v)) + 1 == XCount(g)
  {
    IndexBound(r, c, n, n);
    RefinesSet(g, r * n + c, v);
    XCountSet(g, r * n + c, v);
  }

  /** The grid with row r replaced by line (_setrow). */
  function WithRow(g: string, n: nat, r: nat, line: string): (h: string)
    requires |g| == n * n && r < n && |line| == n
    ensures |h| == n * n
    ensures forall r', c :: 0 <= r' < n && 0 <= c < n ==>
      Cell(h, n, r', c) == if r' == r then line[c] else Cell(g, n, r', c)
  {
    MulMono(r + 1, n, n);
    var h := g[..r * n] + line + g[(r + 1) * n..];
    forall r', c | 0 <= r' < n && 0 <= c < n
      ensures Cell(h, n, r', c) == if r' == r then line[c] else Cell(g, n, r', c)
    {
      IndexBound(r', c, n, n);
      if r' < r {
        IndexBound(r', c, n, r);
      } else if r' > r {
        MulMono(r + 1, r', n);
      }
    }
    h
  }

  /** The grid with the first i cells of column c replaced by line's, top to bottom. */
  function ColumnPrefix(g: string, n: nat, c: nat, line: string, i: nat): (h: string)
    requires |g| == n * n && c < n && |line| == n && i <= n
    ensures |h| == n * n
    ensures forall r, d :: 0 <= r < n && 0 <= d < n ==>
      Cell(h, n, r, d) == if d == c && r < i then line[r] else Cell(g, n, r, d)
  {
    if i == 0 then g else WithCell(ColumnPrefix(g, n, c, line, i - 1), n, i - 1, c, line[i - 1])
  }

  /** The grid with column c replaced by line. */
  function WithColumn(g: string, n: nat, c: nat, line: string): (h: string)
    requires |g| == n * n && c < n && |line| == n
    ensures |h| == n * n
    ensures forall r, d :: 0 <= r < n && 0 <= d < n ==>
      Cell(h, n, r, d) == if d == c then line[r] else Cell(g, n, r, d)
  {
    ColumnPrefix(g, n, c, line, n)
  }

  /**
   * A grid that reads line along row r and agrees with g elsewhere, where
   * line refines g's row r: row r is the line, the other rows are g's, and
   * the grid refines g.
   */
  lemma RowWritten(g: string, h: string, n: nat, r: nat, line: string)
    requires |g| == n * n && |h| == n * n && r < n && |line| == n && Refines(Row(g, n, r), line)
    requires forall i, c :: 0 <= i < n && 0 <= c < n ==>
      Cell(h, n, i, c) == if i == r && c < n then line[c] else Cell(g, n, i, c)
    ensures Refines(g, h)
    ensures Row(h, n, r) == line
    ensures forall i :: 0 <= i < n && i != r ==> Row(h, n, i) == Row(g, n, i)
  {
    CellsDetermineGrid(h, WithRow(g, n, r, line), n);
    RefinesWithRow(g, n, r, line);
    RowsFromCells(g, h, n, r, line);
  }

  /** The same as RowWritten, for column c. */
  lemma ColumnWritten(g: string, h: string, n: nat, c: nat, line: string)
    requires |g| == n * n && |h| == n * n && c < n && |line| == n && Refines(Column(g, n, c), line)
    requires forall i, d :: 0 <= i < n && 0 <= d < n ==>
      Cell(h, n, i, d) == if d == c && i < n then line[i] else Cell(g, n, i, d)
    ensures Refines(g, h)
    ensures Column(h, n, c) == line
    ensures forall j :: 0 <= j < n && j != c ==> Column(h, n, j) == Column(g, n, j)
  {
    CellsDetermineGrid(h, WithColumn(g, n, c, line), n);
    RefinesWithColumn(g, n, c, line);
    ColumnsFromCells(g, h, n, c, line);
  }

  /** Refines, established cell by cell. */
  lemma RefinesByCells(g: string, h: string, n: nat)
    requires |g| == n * n && |h| == n * n
    requires forall r, c :: 0 <= r < n && 0 <= c < n ==>
      Cell(h, n, r, c) == Cell(g, n, r, c) || (Cell(g, n, r, c) == 'X' && (Cell(h, n, r, c) == '0' || Cell(h, n, r, c) == '1'))
    ensures Refines(g, h)
  {
    forall t | 0 <= t < |g|
      ensures h[t] == g[t] || (g[t] == 'X' && (h[t] == '0' || h[t] == '1'))
    {
      var r, c := Split(t, n, n);
      assert Cell(g, n, r, c) == g[t] && Cell(h, n, r, c) == h[t];
    }
  }

  /** Writing a refinement of row r into the grid refines the grid. */
  lemma RefinesWithRow(g: string, n: nat, r: nat, line: string)
    requires |g| == n * n && r < n && Refines(Row(g, n, r), line)
    ensures Refines(g, WithRow(g, n, r, line))
  {
    var h := WithRow(g, n, r, line);
    forall i, c | 0 <= i < n && 0 <= c < n
      ensures Cell(h, n, i, c) == Cell(g, n, i, c) || (Cell(g, n, i, c) == 'X' && (Cell(h, n, i, c) == '0' || Cell(h, n, i, c) == '1'))
    {
      if i == r {
        assert Row(g, n, r)[c] == Cell(g, n, r, c);
      }
    }
    RefinesByCells(g, h, n);
  }

  /** Writing a refinement of column c into the grid refines the grid. */
  lemma RefinesWithColumn(g: string, n: nat, c: nat, line: string)
    requires |g| == n * n && c < n && Refines(Column(g, n, c), line)
    ensures Refines(g, WithColumn(g, n, c, line))
  {
    var h := WithColumn(g, n, c, line);
    forall i, d | 0 <= i < n && 0 <= d < n
      ensures Cell(h, n, i, d) == Cell(g, n, i, d) || (Cell(g, n, i, d) == 'X' && (Cell(h, n, i, d) == '0' || Cell(h, n, i, d) == '1'))
    {
      if d == c {
        assert Column(g, n, c)[i] == Cell(g, n, i, c);
      }
    }
    RefinesByCells(g, h, n);
  }

  /** A grid whose row r reads line and whose other rows are g's is g with row r replaced. */
  lemma RowsDetermineGrid(g: string, h: string, n: nat, r: nat, line: string)
    requires |g| == n * n && |h| == n * n && r < n && |line| == n
    requires Row(h, n, r) == line
    requires forall i :: 0 <= i < n && i != r ==> Row(h, n, i) == Row(g, n, i)
    ensures h == WithRow(g, n, r, line)
  {
    var w := WithRow(g, n, r, line);
    forall i, c | 0 <= i < n && 0 <= c < n
      ensures Cell(h, n, i, c) == Cell(w, n, i, c)
    {
      assert Row(h, n, i)[c] == Cell(h, n, i, c);
      if i != r {
        assert Row(g, n, i)[c] == Cell(g, n, i, c);
      }
    }
    CellsDetermineGrid(h, w, n);
  }

  /** A grid whose column c reads line and whose other columns are g's is g with column c replaced. */
  lemma ColumnsDetermineGrid(g: string, h: string, n: nat, c: nat, line: string)
    requires |g| == n * n && |h| == n * n && c < n && |line| == n
    requires Column(h, n, c) == line
    requires forall j :: 0 <= j < n && j != c ==> Column(h, n, j) == Column(g, n, j)
    ensures h == WithColumn(g, n, c, line)
  {
    var w := WithColumn(g, n, c, line);
    forall i, d | 0 <= i < n && 0 <= d < n
      ensures Cell(h, n, i, d) == Cell(w, n, i, d)
    {
      assert Column(h, n, d)[i] == Cell(h, n, i, d);
      if d != c {
        assert Column(g, n, d)[i] == Cell(g, n, i, d);
      }
    }
    CellsDetermineGrid(h, w, n);
  }

  /** Filling row r left to right: one more position of line is in place. */
  lemma RowPrefixStep(g0: string, g: string, h: string, n: nat, r: nat, j: nat, line: string)
    requires |g0| == n * n && |g| == n * n && |h| == n * n && r < n && j < n && |line| == n
    requires forall i, c :: 0 <= i < n && 0 <= c < n ==>
      Cell(g, n, i, c) == if i == r && c < j then line[c] else Cell(g0, n, i, c)
    requires forall i, c :: 0 <= i < n && 0 <= c < n ==>
      Cell(h, n, i, c) == if i == r && c == j then line[j] else Cell(g, n, i, c)
    ensures forall i, c :: 0 <= i < n && 0 <= c < n ==>
      Cell(h, n, i, c) == if i == r && c < j + 1 then line[c] else Cell(g0, n, i, c)
  {
  }

  /** Filling column c top to bottom: one more position of line is in place. */
  lemma ColumnPrefixStep(g0: string, g: string, h: string, n: nat, c: nat, j: nat, line: string)
    requires |g0| == n * n && |g| == n * n && |h| == n * n && c < n && j < n && |line| == n
    requires forall i, d :: 0 <= i < n && 0 <= d < n ==>
      Cell(g, n, i, d) == if d == c && i < j then line[i] else Cell(g0, n, i, d)
    requires forall i, d :: 0 <= i < n && 0 <= d < n ==>
      Cell(h, n, i, d) == if d == c && i == j then line[j] else Cell(g, n, i, d)
    ensures forall i, d :: 0 <= i < n && 0 <= d < n ==>
      Cell(h, n, i, d) == if d == c && i < j + 1 then line[i] else Cell(g0, n, i, d)
  {
  }

  /** A grid that differs from g only in row r, where it reads line. */
  lemma RowsFromCells(g: string, h: string, n: nat, r: nat, line: string)
    requires |g| == n * n && |h| == n * n && r < n && |line| == n
    requires forall i, c :: 0 <= i < n && 0 <= c < n ==>
      Cell(h, n, i, c) == if i == r then line[c] else Cell(g, n, i, c)
    ensures Row(h, n, r) == line
    ensures forall i :: 0 <= i < n && i != r ==> Row(h, n, i) == Row(g, n, i)
  {
    forall i | 0 <= i < n && i != r
      ensures Row(h, n, i) == Row(g, n, i)
    {
    }
  }

  /** A grid that differs from g only in column c, where it reads line. */
  lemma ColumnsFromCells(g: string, h: string, n: nat, c: nat, line: string)
    requires |g| == n * n && |h| == n * n && c < n && |line| == n
    requires forall i, j :: 0 <= i < n && 0 <= j < n ==>
      Cell(h, n, i, j) == if j == c then line[i] else Cell(g, n, i, j)
    ensures Column(h, n, c) == line
    ensures forall j :: 0 <= j < n && j != c ==> Column(h, n, j) == Column(g, n, j)
  {
    forall j | 0 <= j < n && j != c
      ensures Column(h, n, j) == Column(g, n, j)
    {
    }
  }

  /** Concatenation of strings ("".join). */
  function Concat(parts: seq<string>): string
  {
    if parts == [] then [] else Concat(parts[..|parts| - 1]) + parts[|parts| - 1]
  }

  lemma {:induction false} ConcatLength(parts: seq<string>, w: nat)
    requires forall p :: p in parts ==> |p| == w
    ensures |Concat(parts)| == |parts| * w
  {
    if parts != [] {
      var init := parts[..|parts| - 1];
      ConcatLength(init, w);
      MulSucc(|init|, w);
    }
  }

  lemma {:induction false} ConcatElement(parts: seq<string>, w: nat, i: nat, j: nat)
    requires forall p :: p in parts ==> |p| == w
    requires i < |parts| && j < w
    ensures i * w + j < |Concat(parts)| && Concat(parts)[i * w + j] == parts[i][j]
  {
    var init := parts[..|parts| - 1];
    ConcatLength(init, w);
    ConcatLength(parts, w);
    if i < |init| {
      IndexBound(i, j, w, |init|);
      ConcatElement(init, w, i, j);
    }
  }

  /**
   * The k-by-k block whose top-left cell is (top, left), flattened row-major:
   * grid[top:top+k, left:left+k] joined into one string.
   */
  function Block(g: string, n: nat, top: nat, left: nat, k: nat): (b: string)
    requires |g| == n * n && top + k <= n && left + k <= n
    ensures |b| == k * k
    ensures forall i, j :: 0 <= i < k && 0 <= j < k ==> Cell(b, k, i, j) == Cell(g, n, top + i, left + j)
  {
    var parts := BlockRows(g, n, top, left, k);
    BlockCells(g, n, top, left, k, parts);
    Concat(parts)
  }

  /** The k rows of a block, each cut to the block's k columns. */
  function BlockRows(g: string, n: nat, top: nat, left: nat, k: nat): (parts: seq<string>)
    requires |g| == n * n && top + k <= n && left + k <= n
    ensures |parts| == k
    ensures forall i :: 0 <= i < k ==> parts[i] == Row(g, n, top + i)[left .. left + k]
    ensures forall p :: p in parts ==> |p| == k
  {
    seq(k, i requires 0 <= i < k => Row(g, n, top + i)[left .. left + k])
  }

  lemma BlockCells(g: string, n: nat, top: nat, left: nat, k: nat, parts: seq<string>)
    requires |g| == n * n && top + k <= n && left + k <= n
    requires parts == BlockRows(g, n, top, left, k)
    ensures |Concat(parts)| == k * k
    ensures forall i, j :: 0 <= i < k && 0 <= j < k ==> Cell(Concat(parts), k, i, j) == Cell(g, n, top + i, left + j)
  {
    ConcatLength(parts, k);
    forall i, j | 0 <= i < k && 0 <= j < k
      ensures Cell(Concat(parts), k, i, j) == Cell(g, n, top + i, left + j)
    {
      ConcatElement(parts, k, i, j);
    }
  }

  /**
   * Block (a, b) of the partition of a grid of side m*k into m-by-m blocks
   * of side k: rows a*k .. a*k+k-1 and columns b*k .. b*k+k-1.
   */
  function BlockAt(g: string, k: nat, m: nat, a: nat, b: nat): (block: string)
    requires |g| == (m * k) * (m * k) && a < m && b < m
    ensures |block| == k * k
    ensures forall i, j :: 0 <= i < k && 0 <= j < k ==>
      a * k + i < m * k && b * k + j < m * k &&
      Cell(block, k, i, j) == Cell(g, m * k, a * k + i, b * k + j)
  {
    MulMono(a + 1, m, k);
    MulMono(b + 1, m, k);
    Block(g, m * k, a * k, b * k, k)
  }

  /** When every block row a holds the joined rows of ts[a], every block (a, b) is ts[a][b]. */
  lemma BlocksOfBands(g: string, k: nat, m: nat, ts: seq<seq<string>>)
    requires |g| == (m * k) * (m * k) && |ts| == m
    requires forall a :: 0 <= a < m ==> |ts[a]| == m
    requires forall a, b :: 0 <= a < m && 0 <= b < m ==> |ts[a][b]| == k * k
    requires forall a, i :: 0 <= a < m && 0 <= i < k ==> BandRow(g, k, m, a, i) == JoinedRow(ts[a], k, i)
    ensures forall a, b :: 0 <= a < m && 0 <= b < m ==> BlockAt(g, k, m, a, b) == ts[a][b]
  {
    forall a, b | 0 <= a < m && 0 <= b < m
      ensures BlockAt(g, k, m, a, b) == ts[a][b]
    {
      BlockOfBands(g, k, m, a, b, ts[a]);
    }
  }

  /** The blocks of block row a of g, left to right. */
  function Band(g: string, k: nat, m: nat, a: nat): (blocks: seq<string>)
    requires |g| == (m * k) * (m * k) && a < m
    ensures |blocks| == m && forall b :: 0 <= b < m ==> blocks[b] == BlockAt(g, k, m, a, b)
  {
    seq(m, b requires 0 <= b < m => BlockAt(g, k, m, a, b))
  }

  /** Every block of g, by block row and block column. */
  function Partition(g: string, k: nat, m: nat): (blocks: seq<seq<string>>)
    requires |g| == (m * k) * (m * k)
    ensures |blocks| == m && forall a :: 0 <= a < m ==> |blocks[a]| == m
    ensures forall a, b :: 0 <= a < m && 0 <= b < m ==> blocks[a][b] == BlockAt(g, k, m, a, b)
  {
    seq(m, a requires 0 <= a < m => Band(g, k, m, a))
  }

  /**
   * Cutting g into blocks and joining them back row by row gives g again:
   * a grid whose every band row is the joined row of g's blocks is g.
   */
  lemma JoinOfSplit(g: string, h: string, k: nat, m: nat)
    requires |g| == (m * k) * (m * k) && |h| == |g|
    requires forall a, i :: 0 <= a < m && 0 <= i < k ==> BandRow(h, k, m, a, i) == JoinedRow(Band(g, k, m, a), k, i)
    ensures h == g
  {
    var ts := seq(m, a requires 0 <= a < m => Band(g, k, m, a));
    BlocksOfBands(h, k, m, ts);
    BlocksDetermineGrid(h, g, k, m);
  }

  /** A grid whose side is m blocks of k is fixed by its blocks. */
  lemma BlocksDetermineGrid(g: string, h: string, k: nat, m: nat)
    requires |g| == (m * k) * (m * k) && |h| == |g|
    requires forall a, b :: 0 <= a < m && 0 <= b < m ==> BlockAt(g, k, m, a, b) == BlockAt(h, k, m, a, b)
    ensures g == h
  {
    var n := m * k;
    forall r, c | 0 <= r < n && 0 <= c < n
      ensures Cell(g, n, r, c) == Cell(h, n, r, c)
    {
      var a, i := Split(r, k, m);
      var b, j := Split(c, k, m);
      assert BlockAt(g, k, m, a, b) == BlockAt(h, k, m, a, b);
      assert Cell(BlockAt(g, k, m, a, b), k, i, j) == Cell(g, n, r, c);
    }
    CellsDetermineGrid(g, h, n);
  }

  /**
   * Row i of each of the given k-by-k blocks, side by side ("".join of the
   * rows of one band of subpuzzles).
   */
  function JoinedRow(blocks: seq<string>, k: nat, i: nat): (line: string)
    requires i < k && forall b :: 0 <= b < |blocks| ==> |blocks[b]| == k * k
    ensures |line| == |blocks| * k
  {
    var parts := RowsOf(blocks, k, i);
    ConcatLength(parts, k);
    Concat(parts)
  }

  /** Position b*k + j of the joined row i is cell (i, j) of block b. */
  lemma JoinedRowElement(blocks: seq<string>, k: nat, i: nat, b: nat, j: nat, t: nat)
    requires i < k && forall x :: 0 <= x < |blocks| ==> |blocks[x]| == k * k
    requires b < |blocks| && j < k && t == b * k + j
    ensures t < |JoinedRow(blocks, k, i)| && JoinedRow(blocks, k, i)[t] == Cell(blocks[b], k, i, j)
  {
    ConcatElement(RowsOf(blocks, k, i), k, b, j);
  }

  /** Row i of every block, in order. */
  function RowsOf(blocks: seq<string>, k: nat, i: nat): (parts: seq<string>)
    requires i < k && forall b :: 0 <= b < |blocks| ==> |blocks[b]| == k * k
    ensures |parts| == |blocks|
    ensures forall b :: 0 <= b < |blocks| ==> parts[b] == Row(blocks[b], k, i)
    ensures forall p :: p in parts ==> |p| == k
  {
    if blocks == [] then []
    else RowsOf(blocks[..|blocks| - 1], k, i) + [Row(blocks[|blocks| - 1], k, i)]
  }

  /** Joining one more block appends its row i. */
  lemma JoinedRowSnoc(blocks: seq<string>, k: nat, i: nat, b: nat)
    requires i < k && b < |blocks| && forall x :: 0 <= x < |blocks| ==> |blocks[x]| == k * k
    ensures JoinedRow(blocks[..b + 1], k, i) == JoinedRow(blocks[..b], k, i) + Row(blocks[b], k, i)
  {
    assert blocks[..b + 1][..b] == blocks[..b];
  }

  /** Row i of block row a of a grid of side m*k. */
  function BandRow(g: string, k: nat, m: nat, a: nat, i: nat): (line: string)
    requires |g| == (m * k) * (m * k) && a < m && i < k
    ensures a * k + i < m * k && line == Row(g, m * k, a * k + i)
  {
    IndexBound(a, i, k, m);
    Row(g, m * k, a * k + i)
  }

  /** Rewriting row a*k + j of a grid of side m*k rewrites row j of block row a and keeps every other band row. */
  lemma BandRowsFromCells(g: string, h: string, k: nat, m: nat, a: nat, j: nat, line: string)
    requires |g| == (m * k) * (m * k) && |h| == (m * k) * (m * k) && a < m && j < k && |line| == m * k
    requires forall i, c :: 0 <= i < m * k && 0 <= c < m * k ==>
      Cell(h, m * k, i, c) == if i == a * k + j then line[c] else Cell(g, m * k, i, c)
    ensures BandRow(h, k, m, a, j) == line
    ensures forall x, i :: 0 <= x < m && 0 <= i < k && (x != a || i != j) ==>
      BandRow(h, k, m, x, i) == BandRow(g, k, m, x, i)
  {
    IndexBound(a, j, k, m);
    RowsFromCells(g, h, m * k, a * k + j, line);
    BandRowsKept(g, h, k, m, a, j);
  }

  /** Grids that agree on every row but a*k + j agree on every band row but row j of block row a. */
  lemma BandRowsKept(g: string, h: string, k: nat, m: nat, a: nat, j: nat)
    requires |g| == (m * k) * (m * k) && |h| == (m * k) * (m * k) && a < m && j < k
    requires forall r :: 0 <= r < m * k && r != a * k + j ==> Row(h, m * k, r) == Row(g, m * k, r)
    ensures forall x, i :: 0 <= x < m && 0 <= i < k && (x != a || i != j) ==>
      BandRow(h, k, m, x, i) == BandRow(g, k, m, x, i)
  {
    forall x, i | 0 <= x < m && 0 <= i < k && (x != a || i != j)
      ensures BandRow(h, k, m, x, i) == BandRow(g, k, m, x, i)
    {
      IndexBound(x, i, k, m);
      if x * k + i == a * k + j {
        IndexInjective(x, i, a, j, k);
      }
    }
  }

  /** The accessors agree: position c of row r is cell (r, c). */
  lemma RowCell(g: string, n: nat, r: nat, c: nat)
    requires |g| == n * n && r < n && c < n
    ensures c < |Row(g, n, r)| && Row(g, n, r)[c] == Cell(g, n, r, c)
  {
  }

  /** One cell of block (a, b) when row i of block row a is the joined row i of ts. */
  lemma BlockCellOfBand(g: string, k: nat, m: nat, a: nat, b: nat, ts: seq<string>, i: nat, j: nat)
    requires |g| == (m * k) * (m * k) && a < m && b < m && i < k && j < k
    requires |ts| == m && forall x :: 0 <= x < m ==> |ts[x]| == k * k
    requires BandRow(g, k, m, a, i) == JoinedRow(ts, k, i)
    ensures Cell(BlockAt(g, k, m, a, b), k, i, j) == Cell(ts[b], k, i, j)
  {
    var t := FlatIndex(b, j, k);
    BlockCellStep(g, k, m, a, b, i, j, t);
    JoinedRowElement(ts, k, i, b, j, t);
  }

  /** Cell (i, j) of block (a, b) read through row i of block row a. */
  lemma BlockCellStep(g: string, k: nat, m: nat, a: nat, b: nat, i: nat, j: nat, t: nat)
    requires |g| == (m * k) * (m * k) && a < m && b < m && i < k && j < k && t == b * k + j
    ensures t < m * k && Cell(BlockAt(g, k, m, a, b), k, i, j) == BandRow(g, k, m, a, i)[t]
  {
    IndexBound(b, j, k, m);
    IndexBound(a, i, k, m);
    RowCell(g, m * k, a * k + i, t);
  }

  /** When every row of block row a is the joined rows of ts, block (a, b) is ts[b]. */
  lemma BlockOfBands(g: string, k: nat, m: nat, a: nat, b: nat, ts: seq<string>)
    requires |g| == (m * k) * (m * k) && a < m && b < m
    requires |ts| == m && forall x :: 0 <= x < m ==> |ts[x]| == k * k
    requires forall i :: 0 <= i < k ==> BandRow(g, k, m, a, i) == JoinedRow(ts, k, i)
    ensures BlockAt(g, k, m, a, b) == ts[b]
  {
    var block := BlockAt(g, k, m, a, b);
    forall i, j | 0 <= i < k && 0 <= j < k
      ensures Cell(block, k, i, j) == Cell(ts[b], k, i, j)
    {
      BlockCellOfBand(g, k, m, a, b, ts, i, j);
    }
    CellsDetermineGrid(block, ts[b], k);
  }

  /** Refines, read cell by cell. */
  lemma RefinesAtCell(g: string, h: string, n: nat, r: nat, c: nat)
    requires |g| == n * n && Refines(g, h) && r < n && c < n
    ensures Cell(h, n, r, c) == Cell(g, n, r, c) ||
      (Cell(g, n, r, c) == 'X' && (Cell(h, n, r, c) == '0' || Cell(h, n, r, c) == '1'))
  {
    IndexBound(r, c, n, n);
  }

  /** Row r and column c of a grid of side m*k lie in block (a, b) at (i, j). */
  lemma BlockPosition(k: nat, m: nat, r: nat, c: nat) returns (a: nat, b: nat, i: nat, j: nat)
    requires r < m * k && c < m * k
    ensures a < m && b < m && i < k && j < k && r == a * k + i && c == b * k + j
  {
    a, i := Split(r, k, m);
    b, j := Split(c, k, m);
  }

  /** A grid refines another when each of its blocks refines the matching block. */
  lemma BlocksRefine(g: string, h: string, k: nat, m: nat)
    requires |g| == (m * k) * (m * k) && |h| == |g|
    requires forall a, b :: 0 <= a < m && 0 <= b < m ==> Refines(BlockAt(g, k, m, a, b), BlockAt(h, k, m, a, b))
    ensures Refines(g, h)
  {
    var n := m * k;
    forall t | 0 <= t < |g|
      ensures h[t] == g[t] || (g[t] == 'X' && (h[t] == '0' || h[t] == '1'))
    {
      var r, c := Split(t, n, n);
      BlockCellRefines(g, h, k, m, r, c);
      assert Cell(g, n, r, c) == g[t] && Cell(h, n, r, c) == h[t];
    }
  }

  /** One cell of BlocksRefine: cell (r, c) is refined because its block is. */
  lemma BlockCellRefines(g: string, h: string, k: nat, m: nat, r: nat, c: nat)
    requires |g| == (m * k) * (m * k) && |h| == |g| && r < m * k && c < m * k
    requires forall a, b :: 0 <= a < m && 0 <= b < m ==> Refines(BlockAt(g, k, m, a, b), BlockAt(h, k, m, a, b))
    ensures Cell(h, m * k, r, c) == Cell(g, m * k, r, c) ||
      (Cell(g, m * k, r, c) == 'X' && (Cell(h, m * k, r, c) == '0' || Cell(h, m * k, r, c) == '1'))
  {
    var a, b, i, j := BlockPosition(k, m, r, c);
    var bg, bh := BlockAt(g, k, m, a, b), BlockAt(h, k, m, a, b);
    RefinesAtCell(bg, bh, k, i, j);
    assert Cell(bg, k, i, j) == Cell(g, m * k, r, c);
    assert Cell(bh, k, i, j) == Cell(h, m * k, r, c);
  }

  /** r / k and r % k undo a * k + i. */
  lemma DivMod(a: nat, i: nat, k: nat)
    requires i < k
    ensures (a * k + i) / k == a && (a * k + i) % k == i
  {
    var t := a * k + i;
    IndexInjective(t / k, t % k, a, i, k);
  }

  /** A row index below m*k lies in block row r / k < m, at row r % k of it. */
  lemma DivBelow(r: nat, k: nat, m: nat)
    requires r < m * k
    ensures 0 < k && r / k < m && r % k < k
  {
    var a, i := Split(r, k, m);
    DivMod(a, i, k);
  }

  /** Row r of the grid of side m*k whose blocks are ts: joined row r % k of block row r / k. */
  function RowOfBlocks(ts: seq<seq<string>>, k: nat, m: nat, r: nat): (line: string)
    requires |ts| == m && forall a :: 0 <= a < m ==> |ts[a]| == m
    requires forall a, b :: 0 <= a < m && 0 <= b < m ==> |ts[a][b]| == k * k
    requires r < m * k
    ensures |line| == m * k
  {
    DivBelow(r, k, m);
    JoinedRow(ts[r / k], k, r % k)
  }

  /** The rows of the grid of side m*k whose blocks are ts, top to bottom. */
  function JoinRows(ts: seq<seq<string>>, k: nat, m: nat): (rows: seq<string>)
    requires |ts| == m && forall a :: 0 <= a < m ==> |ts[a]| == m
    requires forall a, b :: 0 <= a < m && 0 <= b < m ==> |ts[a][b]| == k * k
    ensures |rows| == m * k && forall p :: p in rows ==> |p| == m * k
  {
    var rows := seq(m * k, r requires 0 <= r < m * k => RowOfBlocks(ts, k, m, r));
    assert forall r :: 0 <= r < m * k ==> |rows[r]| == m * k;
    rows
  }

  /** Row i of block row a of the joined rows is the joined row i of ts[a]. */
  lemma JoinRowAt(ts: seq<seq<string>>, k: nat, m: nat, a: nat, i: nat)
    requires |ts| == m && forall a :: 0 <= a < m ==> |ts[a]| == m
    requires forall a, b :: 0 <= a < m && 0 <= b < m ==> |ts[a][b]| == k * k
    requires a < m && i < k
    ensures |Concat(JoinRows(ts, k, m))| == (m * k) * (m * k)
    ensures BandRow(Concat(JoinRows(ts, k, m)), k, m, a, i) == JoinedRow(ts[a], k, i)
  {
    var rows := JoinRows(ts, k, m);
    var r := FlatIndex(a, i, k);
    IndexBound(a, i, k, m);
    DivMod(a, i, k);
    RowOfConcat(rows, m * k, r);
    assert rows[r] == RowOfBlocks(ts, k, m, r);
  }

  /** Every band row of the joined rows is the joined row of its blocks. */
  lemma JoinBands(ts: seq<seq<string>>, k: nat, m: nat)
    requires |ts| == m && forall a :: 0 <= a < m ==> |ts[a]| == m
    requires forall a, b :: 0 <= a < m && 0 <= b < m ==> |ts[a][b]| == k * k
    ensures |Concat(JoinRows(ts, k, m))| == (m * k) * (m * k)
    ensures forall a, i :: 0 <= a < m && 0 <= i < k ==> BandRow(Concat(JoinRows(ts, k, m)), k, m, a, i) == JoinedRow(ts[a], k, i)
  {
    ConcatLength(JoinRows(ts, k, m), m * k);
    forall a, i | 0 <= a < m && 0 <= i < k
      ensures BandRow(Concat(JoinRows(ts, k, m)), k, m, a, i) == JoinedRow(ts[a], k, i)
    {
      JoinRowAt(ts, k, m, a, i);
    }
  }

  /** Row r of rows joined, all of length n, n of them, read as a grid of side n, is rows[r]. */
  lemma RowOfConcat(rows: seq<string>, n: nat, r: nat)
    requires |rows| == n && (forall p :: p in rows ==> |p| == n) && r < n
    ensures |Concat(rows)| == n * n && Row(Concat(rows), n, r) == rows[r]
  {
    ConcatLength(rows, n);
    forall c | 0 <= c < n
      ensures Row(Concat(rows), n, r)[c] == rows[r][c]
    {
      ConcatElement(rows, n, r, c);
    }
  }

  /**
   * The grid of side m*k whose block (a, b) is ts[a][b]: what _update_puzzle
   * writes, since it overwrites every row of the whole grid.
   */
  function Join(ts: seq<seq<string>>, k: nat, m: nat): (g: string)
    requires |ts| == m && forall a :: 0 <= a < m ==> |ts[a]| == m
    requires forall a, b :: 0 <= a < m && 0 <= b < m ==> |ts[a][b]| == k * k
    ensures |g| == (m * k) * (m * k)
    ensures forall a, b :: 0 <= a < m && 0 <= b < m ==> BlockAt(g, k, m, a, b) == ts[a][b]
  {
    JoinBands(ts, k, m);
    BlocksOfBands(Concat(JoinRows(ts, k, m)), k, m, ts);
    Concat(JoinRows(ts, k, m))
  }

  /** Join after Partition gives the grid back, and a grid is the Join of its own blocks. */
  lemma JoinOfBlocks(g: string, ts: seq<seq<string>>, k: nat, m: nat)
    requires |g| == (m * k) * (m * k) && |ts| == m && forall a :: 0 <= a < m ==> |ts[a]| == m
    requires forall a, b :: 0 <= a < m && 0 <= b < m ==> |ts[a][b]| == k * k && ts[a][b] == BlockAt(g, k, m, a, b)
    ensures Join(ts, k, m) == g
  {
    var h := Join(ts, k, m);
    assert forall a, b :: 0 <= a < m && 0 <= b < m ==> BlockAt(g, k, m, a, b) == BlockAt(h, k, m, a, b);
    BlocksDetermineGrid(g, h, k, m);
  }
}
