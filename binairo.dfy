/**
 * The Binairo puzzle object: the grid string, its side length and the two
 * candidate pools, one per axis, and the propagation loop over them.
 */
module Puzzle {
  import opened Lines
  import opened Grid
  import opened Errors
  import opened Resolver
  import opened Propagation

  function Square(k: nat): nat
  {
    k * k
  }

  lemma SquareMono(a: nat, b: nat)
    requires a < b
    ensures Square(a) < Square(b)
  {
    MulMono(a, b, a);
    MulMono(a, b, b);
  }

  /** Starting at k, the side of a square with l cells; InvalidSize when l is no square. */
  function RootFrom(l: nat, k: nat): (r: Result<nat>)
    requires forall j: nat :: j < k ==> Square(j) != l
    ensures r.Ok? ==> Square(r.value) == l
    ensures r.Err? ==> r.error == InvalidSize && forall j: nat :: Square(j) != l
    decreases l + 1 - k
  {
    if Square(k) == l then Ok(k)
    else if Square(k) > l then
      assert forall j: nat :: j > k ==> Square(j) > l by {
        forall j: nat | j > k
          ensures Square(j) > l
        {
          SquareMono(k, j);
        }
      }
      Err(InvalidSize)
    else
      assert k <= l by {
        if k > 0 {
          MulMono(1, k, k);
        }
      }
      RootFrom(l, k + 1)
  }

  /** The side of a puzzle of l cells: the integer square root, or InvalidSize. */
  function SideLength(l: nat): (r: Result<nat>)
    ensures r.Ok? <==> exists k: nat :: Square(k) == l
    ensures r.Ok? ==> Square(r.value) == l
    ensures r.Err? ==> r.error == InvalidSize
  {
    RootFrom(l, 0)
  }

  lemma SquareInjective(a: nat, b: nat)
    requires Square(a) == Square(b)
    ensures a == b
  {
    if a < b {
      SquareMono(a, b);
    } else if b < a {
      SquareMono(b, a);
    }
  }

  class Binairo {
    var puzzle: string
    var size: nat
    var possibleRows: seq<Line>
    var possibleColumns: seq<Line>

    /** The grid holds size*size cells; each pool holds distinct legal lines. */
    ghost predicate Valid()
      reads this
    {
      |puzzle| == size * size &&
      LegalPool(possibleRows, size) && LegalPool(possibleColumns, size)
    }

    /** Both pools hold every legal line of side size, as __init__ leaves them. */
    ghost predicate FullPools()
      reads this
    {
      (forall l :: l in possibleRows <==> 0 < size && IsLegal(l, size)) && possibleColumns == possibleRows
    }

    /** The grid and the two pools, as a value. */
    function Snapshot(): State
      reads this
    {
      State(puzzle, possibleRows, possibleColumns)
    }

    /** A puzzle whose length is known to be side*side; both pools start as every legal line. */
    constructor (puzzle: string, side: nat)
      requires Square(side) == |puzzle|
      ensures Valid() && this.puzzle == puzzle && size == side
      ensures forall l :: l in possibleRows <==> 0 < side && IsLegal(l, side)
      ensures possibleColumns == possibleRows
    {
      var lines := DeterminePossibleLines(side);
      this.puzzle := puzzle;
      size := side;
      possibleRows := lines;
      possibleColumns := lines;
    }

    /**
     * Construction from another puzzle: the same grid and side, with both
     * pools computed afresh rather than copied.
     */
    constructor Copy(other: Binairo)
      requires other.Valid()
      ensures Valid() && puzzle == other.puzzle && size == other.size
      ensures forall l :: l in possibleRows <==> 0 < size && IsLegal(l, size)
      ensures possibleColumns == possibleRows
    {
      var lines := DeterminePossibleLines(other.size);
      puzzle := other.puzzle;
      size := other.size;
      possibleRows := lines;
      possibleColumns := lines;
    }

    /** Construction from a puzzle string; InvalidSize when its length is not a perfect square. */
    static method Create(puzzle: string) returns (r: Result<Binairo>)
      ensures r.Err? <==> forall k: nat :: Square(k) != |puzzle|
      ensures r.Err? ==> r.error == InvalidSize
      ensures r.Ok? ==> fresh(r.value) && r.value.Valid()
      ensures r.Ok? ==> r.value.puzzle == puzzle && Square(r.value.size) == |puzzle|
      ensures r.Ok? ==> forall l :: l in r.value.possibleRows <==> 0 < r.value.size && IsLegal(l, r.value.size)
      ensures r.Ok? ==> r.value.possibleColumns == r.value.possibleRows
    {
      match SideLength(|puzzle|)
      case Err(e) =>
        r := Err(e);
      case Ok(k) =>
        var b := new Binairo(puzzle, k);
        r := Ok(b);
    }

    /** __eq__: two puzzles are equal when their grid strings are. */
    function Equals(other: Binairo): (eq: bool)
      reads this, other
      ensures Valid() && other.Valid() ==> (eq <==> SameCells(puzzle, size, other.puzzle, other.size))
    {
      if |puzzle| == size * size && |other.puzzle| == other.size * other.size then
        SameGridIffSameCells(puzzle, size, other.puzzle, other.size);
        puzzle == other.puzzle
      else
        puzzle == other.puzzle
    }

    /** __setitem__: write a one-character value at (r, c); any other length is InvalidValue. */
    method SetItem(r: nat, c: nat, value: string) returns (o: Outcome)
      requires Valid() && r < size && c < size
      modifies this
      ensures Valid() && size == old(size)
      ensures possibleRows == old(possibleRows) && possibleColumns == old(possibleColumns)
      ensures o.Pass? <==> |value| == 1
      ensures o.Fail? ==> o.error == InvalidValue && puzzle == old(puzzle)
      ensures o.Pass? ==> puzzle == WithCell(old(puzzle), size, r, c, value[0])
      ensures o.Pass? ==> forall r', c' :: 0 <= r' < size && 0 <= c' < size ==>
        Cell(puzzle, size, r', c') == if r' == r && c' == c then value[0] else Cell(old(puzzle), size, r', c')
    {
      if |value| != 1 {
        return Fail(InvalidValue);
      }
      puzzle := WithCell(puzzle, size, r, c, value[0]);
      return Pass;
    }

    /** _setrow: replace row index by value; a value whose length is not size is InvalidValue. */
    method SetRow(index: nat, value: string) returns (o: Outcome)
      requires Valid() && index < size
      modifies this
      ensures Valid() && size == old(size)
      ensures possibleRows == old(possibleRows) && possibleColumns == old(possibleColumns)
      ensures o.Pass? <==> |value| == size
      ensures o.Fail? ==> o.error == InvalidValue && puzzle == old(puzzle)
      ensures o.Pass? ==> forall r, c :: 0 <= r < size && 0 <= c < size ==>
        Cell(puzzle, size, r, c) == if r == index then value[c] else Cell(old(puzzle), size, r, c)
    {
      if |value| != size {
        return Fail(InvalidValue);
      }
      puzzle := WithRow(puzzle, size, index, value);
      return Pass;
    }

    /**
     * _check_row: resolve one row against the row pool (see
     * Resolver.ResolveLine), writing the forced cells one at a time and
     * returning the columns that changed.
     */
    method CheckRow(row: nat) returns (r: Result<seq<nat>>)
      requires Valid() && row < size
      modifies this
      ensures Valid() && size == old(size) && possibleColumns == old(possibleColumns)
      ensures Refines(old(puzzle), puzzle)
      ensures IsSubsequence(possibleRows, old(possibleRows))
      ensures r.Ok? ==> XCount(puzzle) + |r.value| == XCount(old(puzzle))
      ensures r.Ok? ==> forall j :: j in r.value ==> j < size
      ensures match ResolveLine(Row(old(puzzle), size, row), old(possibleRows))
        case Err(e) => r == Err(e) && puzzle == old(puzzle) && possibleRows == old(possibleRows)
        case Ok(res) =>
          r == Ok(res.changes) && possibleRows == res.pool && Row(puzzle, size, row) == res.line &&
          forall i :: 0 <= i < size && i != row ==> Row(puzzle, size, i) == Row(old(puzzle), size, i)
    {
      SubsequenceReflexive(possibleRows);
      var line := Row(puzzle, size, row);
      if 'X' !in line {
        if !Parses(line) {
          return Err(InvalidCharacter);
        }
        ResolveSound(line, possibleRows, size);
        possibleRows := Without(possibleRows, DigitValues(line));
        assert ResolveLine(line, old(possibleRows)) == Ok(Resolution(line, possibleRows, []));
        return Ok([]);
      }
      var found := GetSolutions(line, possibleRows);
      if found.Err? {
        return Err(found.error);
      }
      var solutions := found.value;
      if |solutions| == 0 {
        return Err(NoSolutionsFound);
      }
      ResolveSound(line, possibleRows, size);
      ForcedPositionsSpec(line, solutions, size);
      if |solutions| == 1 {
        possibleRows := Without(possibleRows, solutions[0]);
      }
      var changes := FillRow(row, line, solutions);
      assert ResolveLine(line, old(possibleRows)) == Ok(Resolution(Forced(line, solutions), possibleRows, changes));
      return Ok(changes);
    }

    /**
     * One step of the writing loops of _check_row and _check_column: cell
     * (r, c), which holds line[p], is set to the candidates' digit when it is
     * unknown and every candidate agrees at p.
     */
    method FillAt(r: nat, c: nat, line: string, p: nat, solutions: seq<Line>) returns (filled: bool)
      requires Valid() && r < size && c < size && p < |line|
      requires solutions != [] && Fits(solutions, |line|) && Cell(puzzle, size, r, c) == line[p]
      modifies this
      ensures Valid() && size == old(size)
      ensures possibleRows == old(possibleRows) && possibleColumns == old(possibleColumns)
      ensures filled <==> line[p] == 'X' && Unanimous(solutions, p)
      ensures XCount(puzzle) + (if filled then 1 else 0) == XCount(old(puzzle))
      ensures Refines(old(puzzle), puzzle)
      ensures forall i, j :: 0 <= i < size && 0 <= j < size ==>
        Cell(puzzle, size, i, j) == if i == r && j == c then Forced(line, solutions)[p] else Cell(old(puzzle), size, i, j)
    {
      filled := line[p] == 'X' && Unanimous(solutions, p);
      if filled {
        var digit := DigitChar(solutions[0][p]);
        FillCell(puzzle, size, r, c, digit);
        var _ := SetItem(r, c, [digit]);
      }
    }

    /**
     * One pass of FillRow's loop, at position j: row `row` holds the forced
     * line before j and g0's cells elsewhere, and changes lists the forced
     * positions before j. Position j is filled as FillAt does and, when it
     * was written, appended to the list.
     */
    method FillRowAt(row: nat, line: string, j: nat, solutions: seq<Line>, changes: seq<nat>, ghost g0: string)
      returns (changes': seq<nat>)
      requires Valid() && row < size && j < size && |g0| == size * size && line == Row(g0, size, row)
      requires solutions != [] && Fits(solutions, size)
      requires changes == ForcedPositions(line, solutions, j)
      requires XCount(puzzle) + |changes| == XCount(g0)
      requires forall i, c :: 0 <= i < size && 0 <= c < size ==>
        Cell(puzzle, size, i, c) == if i == row && c < j then Forced(line, solutions)[c] else Cell(g0, size, i, c)
      modifies this
      ensures Valid() && size == old(size)
      ensures possibleRows == old(possibleRows) && possibleColumns == old(possibleColumns)
      ensures changes' == ForcedPositions(line, solutions, j + 1)
      ensures XCount(puzzle) + |changes'| == XCount(g0)
      ensures forall i, c :: 0 <= i < size && 0 <= c < size ==>
        Cell(puzzle, size, i, c) == if i == row && c < j + 1 then Forced(line, solutions)[c] else Cell(g0, size, i, c)
    {
      ghost var before := puzzle;
      var f := FillAt(row, j, line, j, solutions);
      changes' := if f then changes + [j] else changes;
      RowPrefixStep(g0, before, puzzle, size, row, j, Forced(line, solutions));
    }

    /**
     * The writing half of _check_row: every unknown cell of the row on which
     * all candidates agree is set to their digit. With one candidate every
     * position is unanimous, so this one loop also covers the source's loop
     * over the unknown positions in that case.
     */
    method FillRow(row: nat, line: string, solutions: seq<Line>) returns (changes: seq<nat>)
      requires Valid() && row < size && line == Row(puzzle, size, row)
      requires solutions != [] && Fits(solutions, size)
      modifies this
      ensures Valid() && size == old(size)
      ensures possibleRows == old(possibleRows) && possibleColumns == old(possibleColumns)
      ensures changes == ForcedPositions(line, solutions, size)
      ensures XCount(puzzle) + |changes| == XCount(old(puzzle))
      ensures Refines(old(puzzle), puzzle)
      ensures Row(puzzle, size, row) == Forced(line, solutions)
      ensures forall i :: 0 <= i < size && i != row ==> Row(puzzle, size, i) == Row(old(puzzle), size, i)
    {
      changes := [];
      for j: nat := 0 to size
        invariant Valid() && size == old(size)
        invariant possibleRows == old(possibleRows) && possibleColumns == old(possibleColumns)
        invariant changes == ForcedPositions(line, solutions, j)
        invariant XCount(puzzle) + |changes| == XCount(old(puzzle))
        invariant forall i, c :: 0 <= i < size && 0 <= c < size ==>
          Cell(puzzle, size, i, c) == if i == row && c < j then Forced(line, solutions)[c] else Cell(old(puzzle), size, i, c)
      {
        changes := FillRowAt(row, line, j, solutions, changes, old(puzzle));
      }
      RowWritten(old(puzzle), puzzle, size, row, Forced(line, solutions));
    }

    /** One pass of FillColumn's loop: the same as FillRowAt, down column `column`. */
    method FillColumnAt(column: nat, line: string, j: nat, solutions: seq<Line>, changes: seq<nat>, ghost g0: string)
      returns (changes': seq<nat>)
      requires Valid() && column < size && j < size && |g0| == size * size && line == Column(g0, size, column)
      requires solutions != [] && Fits(solutions, size)
      requires changes == ForcedPositions(line, solutions, j)
      requires XCount(puzzle) + |changes| == XCount(g0)
      requires forall i, c :: 0 <= i < size && 0 <= c < size ==>
        Cell(puzzle, size, i, c) == if c == column && i < j then Forced(line, solutions)[i] else Cell(g0, size, i, c)
      modifies this
      ensures Valid() && size == old(size)
      ensures possibleRows == old(possibleRows) && possibleColumns == old(possibleColumns)
      ensures changes' == ForcedPositions(line, solutions, j + 1)
      ensures XCount(puzzle) + |changes'| == XCount(g0)
      ensures forall i, c :: 0 <= i < size && 0 <= c < size ==>
        Cell(puzzle, size, i, c) == if c == column && i < j + 1 then Forced(line, solutions)[i] else Cell(g0, size, i, c)
    {
      ghost var before := puzzle;
      var f := FillAt(j, column, line, j, solutions);
      changes' := if f then changes + [j] else changes;
      ColumnPrefixStep(g0, before, puzzle, size, column, j, Forced(line, solutions));
    }

    /** The writing half of _check_column: the same as FillRow, down a column. */
    method FillColumn(column: nat, line: string, solutions: seq<Line>) returns (changes: seq<nat>)
      requires Valid() && column < size && line == Column(puzzle, size, column)
      requires solutions != [] && Fits(solutions, size)
      modifies this
      ensures Valid() && size == old(size)
      ensures possibleRows == old(possibleRows) && possibleColumns == old(possibleColumns)
      ensures changes == ForcedPositions(line, solutions, size)
      ensures XCount(puzzle) + |changes| == XCount(old(puzzle))
      ensures Refines(old(puzzle), puzzle)
      ensures Column(puzzle, size, column) == Forced(line, solutions)
      ensures forall j :: 0 <= j < size && j != column ==> Column(puzzle, size, j) == Column(old(puzzle), size, j)
    {
      changes := [];
      for j: nat := 0 to size
        invariant Valid() && size == old(size)
        invariant possibleRows == old(possibleRows) && possibleColumns == old(possibleColumns)
        invariant changes == ForcedPositions(line, solutions, j)
        invariant XCount(puzzle) + |changes| == XCount(old(puzzle))
        invariant forall i, c :: 0 <= i < size && 0 <= c < size ==>
          Cell(puzzle, size, i, c) == if c == column && i < j then Forced(line, solutions)[i] else Cell(old(puzzle), size, i, c)
      {
        changes := FillColumnAt(column, line, j, solutions, changes, old(puzzle));
      }
      ColumnWritten(old(puzzle), puzzle, size, column, Forced(line, solutions));
    }

    /** _check_column: the same as CheckRow, on a column and the column pool. */
    method CheckColumn(column: nat) returns (r: Result<seq<nat>>)
      requires Valid() && column < size
      modifies this
      ensures Valid() && size == old(size) && possibleRows == old(possibleRows)
      ensures Refines(old(puzzle), puzzle)
      ensures IsSubsequence(possibleColumns, old(possibleColumns))
      ensures r.Ok? ==> XCount(puzzle) + |r.value| == XCount(old(puzzle))
      ensures r.Ok? ==> forall j :: j in r.value ==> j < size
      ensures match ResolveLine(Column(old(puzzle), size, column), old(possibleColumns))
        case Err(e) => r == Err(e) && puzzle == old(puzzle) && possibleColumns == old(possibleColumns)
        case Ok(res) =>
          r == Ok(res.changes) && possibleColumns == res.pool && Column(puzzle, size, column) == res.line &&
          forall i :: 0 <= i < size && i != column ==> Column(puzzle, size, i) == Column(old(puzzle), size, i)
    {
      SubsequenceReflexive(possibleColumns);
      var line := Column(puzzle, size, column);
      if 'X' !in line {
        if !Parses(line) {
          return Err(InvalidCharacter);
        }
        ResolveSound(line, possibleColumns, size);
        possibleColumns := Without(possibleColumns, DigitValues(line));
        assert ResolveLine(line, old(possibleColumns)) == Ok(Resolution(line, possibleColumns, []));
        return Ok([]);
      }
      var found := GetSolutions(line, possibleColumns);
      if found.Err? {
        return Err(found.error);
      }
      var solutions := found.value;
      if |solutions| == 0 {
        return Err(NoSolutionsFound);
      }
      ResolveSound(line, possibleColumns, size);
      ForcedPositionsSpec(line, solutions, size);
      if |solutions| == 1 {
        possibleColumns := Without(possibleColumns, solutions[0]);
      }
      var changes := FillColumn(column, line, solutions);
      assert ResolveLine(line, old(possibleColumns)) == Ok(Resolution(Forced(line, solutions), possibleColumns, changes));
      return Ok(changes);
    }

    /**
     * The body of _iterate_rows's loop: check one row, then, depth first,
     * the columns it changed; the result is Propagation.RowVisit's.
     */
    method VisitRow(row: nat) returns (o: Outcome)
      requires Valid() && row < size
      modifies this
      ensures Valid() && size == old(size)
      ensures Run(Snapshot(), o) == RowVisit(old(Snapshot()), size, row)
      decreases XCount(puzzle), 1, 0
    {
      var changes := CheckRow(row);
      if changes.Err? {
        return Fail(changes.error);
      }
      ghost var x := ResolveLine(Row(old(puzzle), size, row), old(possibleRows)).value;
      RowsDetermineGrid(old(puzzle), puzzle, size, row, x.line);
      assert RowCheck(old(Snapshot()), size, row) == Ok((Snapshot(), changes.value));
      assert forall i :: 0 <= i < |changes.value| ==> changes.value[i] in changes.value;
      o := IterateColumns(changes.value);
    }

    /** The body of _iterate_columns's loop; the result is Propagation.ColumnVisit's. */
    method VisitColumn(column: nat) returns (o: Outcome)
      requires Valid() && column < size
      modifies this
      ensures Valid() && size == old(size)
      ensures Run(Snapshot(), o) == ColumnVisit(old(Snapshot()), size, column)
      decreases XCount(puzzle), 1, 0
    {
      var changes := CheckColumn(column);
      if changes.Err? {
        return Fail(changes.error);
      }
      ghost var x := ResolveLine(Column(old(puzzle), size, column), old(possibleColumns)).value;
      ColumnsDetermineGrid(old(puzzle), puzzle, size, column, x.line);
      assert ColumnCheck(old(Snapshot()), size, column) == Ok((Snapshot(), changes.value));
      assert forall i :: 0 <= i < |changes.value| ==> changes.value[i] in changes.value;
      o := IterateRows(changes.value);
    }

    /** _iterate_rows: visit each listed row in turn; the result is Propagation.RowCascade's. */
    method IterateRows(indices: seq<nat>) returns (o: Outcome)
      requires Valid() && forall k :: 0 <= k < |indices| ==> indices[k] < size
      modifies this
      ensures Valid() && size == old(size)
      ensures Run(Snapshot(), o) == RowCascade(old(Snapshot()), size, indices)
      decreases XCount(puzzle), |indices|, 1
    {
      var k := 0;
      while k < |indices|
        invariant 0 <= k <= |indices|
        invariant Valid() && size == old(size)
        invariant Refines(old(puzzle), puzzle)
        invariant RowCascade(Snapshot(), size, indices[k..]) == RowCascade(old(Snapshot()), size, indices)
      {
        ghost var before := Snapshot();
        RefinesXCount(old(puzzle), puzzle);
        o := VisitRow(indices[k]);
        RefinesTransitive(old(puzzle), before.grid, puzzle);
        assert indices[k..][1..] == indices[k + 1..];
        if o.Fail? {
          return;
        }
        k := k + 1;
      }
      return Pass;
    }

    /** _iterate_columns: visit each listed column in turn; the result is Propagation.ColumnCascade's. */
    method IterateColumns(indices: seq<nat>) returns (o: Outcome)
      requires Valid() && forall k :: 0 <= k < |indices| ==> indices[k] < size
      modifies this
      ensures Valid() && size == old(size)
      ensures Run(Snapshot(), o) == ColumnCascade(old(Snapshot()), size, indices)
      decreases XCount(puzzle), |indices|, 1
    {
      var k := 0;
      while k < |indices|
        invariant 0 <= k <= |indices|
        invariant Valid() && size == old(size)
        invariant Refines(old(puzzle), puzzle)
        invariant ColumnCascade(Snapshot(), size, indices[k..]) == ColumnCascade(old(Snapshot()), size, indices)
      {
        ghost var before := Snapshot();
        RefinesXCount(old(puzzle), puzzle);
        o := VisitColumn(indices[k]);
        RefinesTransitive(old(puzzle), before.grid, puzzle);
        assert indices[k..][1..] == indices[k + 1..];
        if o.Fail? {
          return;
        }
        k := k + 1;
      }
      return Pass;
    }

    /** _loop: every row then every column, each with its cascade; the result is Propagation.Sweep's. */
    method Loop() returns (o: Outcome)
      requires Valid()
      modifies this
      ensures Valid() && size == old(size)
      ensures Run(Snapshot(), o) == Sweep(old(Snapshot()), size)
    {
      var all := Upto(size);
      o := IterateRows(all);
      if o.Fail? {
        return;
      }
      o := IterateColumns(all);
    }

    /**
     * solve: sweep while an unknown cell is left. The source loops for ever
     * when sweeps stop making progress; here at most fuel sweeps run, and
     * Unfinished reports that the source would still be sweeping.
     */
    method Solve(fuel: nat) returns (s: Status)
      requires Valid()
      modifies this
      ensures Valid() && size == old(size)
      ensures (Snapshot(), s) == Rounds(old(Snapshot()), size, fuel)
      ensures Refines(old(puzzle), puzzle)
      ensures s == Solved ==> 'X' !in puzzle
      ensures s == Unfinished ==> 'X' in puzzle
    {
      var rounds := 0;
      while 'X' in puzzle
        invariant Valid() && size == old(size)
        invariant rounds <= fuel
        invariant Rounds(Snapshot(), size, fuel - rounds) == Rounds(old(Snapshot()), size, fuel)
        decreases fuel - rounds
      {
        if rounds == fuel {
          return Unfinished;
        }
        var o := Loop();
        if o.Fail? {
          return Failed(o.error);
        }
        rounds := rounds + 1;
      }
      return Solved;
    }
  }

  /** Two grids have the same side and the same cell at every position. */
  predicate SameCells(g: string, n: nat, h: string, m: nat)
    requires |g| == n * n && |h| == m * m
  {
    n == m && forall r, c :: 0 <= r < n && 0 <= c < n ==> Cell(g, n, r, c) == Cell(h, m, r, c)
  }

  /** Square grids are equal strings exactly when they have the same side and the same cells. */
  lemma SameGridIffSameCells(g: string, n: nat, h: string, m: nat)
    requires |g| == n * n && |h| == m * m
    ensures g == h <==> SameCells(g, n, h, m)
  {
    if g == h {
      assert Square(n) == Square(m);
      SquareInjective(n, m);
    }
    if SameCells(g, n, h, m) {
      CellsDetermineGrid(g, h, n);
    }
  }
}
