/**
 * Constraint propagation on values. A puzzle's mutable part (its grid and
 * its two pools) is a State; _check_row, _check_column, _iterate_rows,
 * _iterate_columns and _loop are functions from the old State to the new
 * one. The methods of Puzzle.Binairo are proved to compute them.
 */
module Propagation {
  import opened Lines
  import opened Grid
  import opened Errors
  import opened Resolver

  /** The grid and the row and column pools of a puzzle. */
  datatype State = State(grid: string, rows: seq<Line>, columns: seq<Line>)

  /** Where a cascade stops: the state reached, and Fail with the error raised, if one was. */
  datatype Run = Run(state: State, outcome: Outcome)

  /** A state of a puzzle of side n: n*n cells and, per axis, distinct legal lines. */
  predicate Wf(s: State, n: nat)
  {
    |s.grid| == n * n && LegalPool(s.rows, n) && LegalPool(s.columns, n)
  }

  /** t follows s: every known cell is kept, and each pool only loses entries. */
  predicate Advances(s: State, t: State, n: nat)
  {
    Wf(t, n) && Refines(s.grid, t.grid) && IsSubsequence(t.rows, s.rows) && IsSubsequence(t.columns, s.columns)
  }

  lemma AdvancesReflexive(s: State, n: nat)
    requires Wf(s, n)
    ensures Advances(s, s, n)
  {
    SubsequenceReflexive(s.rows);
    SubsequenceReflexive(s.columns);
  }

  lemma AdvancesTransitive(s: State, t: State, u: State, n: nat)
    requires Advances(s, t, n) && Advances(t, u, n)
    ensures Advances(s, u, n)
  {
    RefinesTransitive(s.grid, t.grid, u.grid);
    SubsequenceTransitive(u.rows, t.rows, s.rows);
    SubsequenceTransitive(u.columns, t.columns, s.columns);
  }

  /**
   * _check_row on a state: row r is resolved against the row pool
   * (Resolver.ResolveLine); on success the new line is written back and the
   * changed positions are returned.
   */
  function RowCheck(s: State, n: nat, r: nat): (res: Result<(State, seq<nat>)>)
    requires Wf(s, n) && r < n
    ensures res.Ok? ==> Advances(s, res.value.0, n) && res.value.0.columns == s.columns
    ensures res.Ok? ==> forall k :: 0 <= k < |res.value.1| ==> res.value.1[k] < n
    ensures res.Ok? && res.value.1 != [] ==> XCount(res.value.0.grid) < XCount(s.grid)
    ensures res.Err? ==> res.error == InvalidCharacter || res.error == NoSolutionsFound
  {
    var line := Row(s.grid, n, r);
    ResolveErrors(line, s.rows);
    match ResolveLine(line, s.rows)
    case Err(e) => Err(e)
    case Ok(x) =>
      ResolveSound(line, s.rows, n);
      SubsequenceReflexive(s.columns);
      WriteBackRow(s.grid, n, r, x.line, x.changes);
      var g := WithRow(s.grid, n, r, x.line);
      Ok((State(g, x.pool, s.columns), x.changes))
  }

  /** _check_column on a state: the same as RowCheck, on column c and the column pool. */
  function ColumnCheck(s: State, n: nat, c: nat): (res: Result<(State, seq<nat>)>)
    requires Wf(s, n) && c < n
    ensures res.Ok? ==> Advances(s, res.value.0, n) && res.value.0.rows == s.rows
    ensures res.Ok? ==> forall k :: 0 <= k < |res.value.1| ==> res.value.1[k] < n
    ensures res.Ok? && res.value.1 != [] ==> XCount(res.value.0.grid) < XCount(s.grid)
    ensures res.Err? ==> res.error == InvalidCharacter || res.error == NoSolutionsFound
  {
    var line := Column(s.grid, n, c);
    ResolveErrors(line, s.columns);
    match ResolveLine(line, s.columns)
    case Err(e) => Err(e)
    case Ok(x) =>
      ResolveSound(line, s.columns, n);
      SubsequenceReflexive(s.rows);
      WriteBackColumn(s.grid, n, c, x.line, x.changes);
      var g := WithColumn(s.grid, n, c, x.line);
      Ok((State(g, s.rows, x.pool), x.changes))
  }

  /**
   * Writing back a refinement of row r whose changed positions are listed
   * in changes: the grid is refined, and a non-empty list removes unknowns.
   */
  lemma WriteBackRow(g: string, n: nat, r: nat, line: string, changes: seq<nat>)
    requires |g| == n * n && r < n && Refines(Row(g, n, r), line)
    requires forall j :: j in changes <==> 0 <= j < n && line[j] != Row(g, n, r)[j]
    ensures Refines(g, WithRow(g, n, r, line))
    ensures forall k :: 0 <= k < |changes| ==> changes[k] < n
    ensures changes != [] ==> XCount(WithRow(g, n, r, line)) < XCount(g)
  {
    var h := WithRow(g, n, r, line);
    RefinesWithRow(g, n, r, line);
    assert forall k :: 0 <= k < |changes| ==> changes[k] in changes;
    if changes != [] {
      var j := changes[0];
      assert j in changes;
      assert Cell(h, n, r, j) != Cell(g, n, r, j);
    }
    RefinesXCount(g, h);
  }

  /** The same as WriteBackRow, for column c. */
  lemma WriteBackColumn(g: string, n: nat, c: nat, line: string, changes: seq<nat>)
    requires |g| == n * n && c < n && Refines(Column(g, n, c), line)
    requires forall i :: i in changes <==> 0 <= i < n && line[i] != Column(g, n, c)[i]
    ensures Refines(g, WithColumn(g, n, c, line))
    ensures forall k :: 0 <= k < |changes| ==> changes[k] < n
    ensures changes != [] ==> XCount(WithColumn(g, n, c, line)) < XCount(g)
  {
    var h := WithColumn(g, n, c, line);
    RefinesWithColumn(g, n, c, line);
    assert forall k :: 0 <= k < |changes| ==> changes[k] in changes;
    if changes != [] {
      var i := changes[0];
      assert i in changes;
      assert Cell(h, n, i, c) != Cell(g, n, i, c);
    }
    RefinesXCount(g, h);
  }

  /**
   * The body of _iterate_rows's loop on a state: check row r and, depth
   * first, cascade into the columns it changed. A non-empty change list
   * removes unknown cells, which is why the cascade ends.
   */
  function RowVisit(s: State, n: nat, r: nat): (res: Run)
    requires Wf(s, n) && r < n
    ensures Advances(s, res.state, n)
    ensures res.outcome.Fail? ==> res.outcome.error == InvalidCharacter || res.outcome.error == NoSolutionsFound
    decreases XCount(s.grid), 1, 0
  {
    match RowCheck(s, n, r)
    case Err(e) =>
      AdvancesReflexive(s, n);
      Run(s, Fail(e))
    case Ok((t, changes)) =>
      RefinesXCount(s.grid, t.grid);
      var after := ColumnCascade(t, n, changes);
      AdvancesTransitive(s, t, after.state, n);
      after
  }

  /** The body of _iterate_columns's loop on a state: check column c, then cascade into the rows it changed. */
  function ColumnVisit(s: State, n: nat, c: nat): (res: Run)
    requires Wf(s, n) && c < n
    ensures Advances(s, res.state, n)
    ensures res.outcome.Fail? ==> res.outcome.error == InvalidCharacter || res.outcome.error == NoSolutionsFound
    decreases XCount(s.grid), 1, 0
  {
    match ColumnCheck(s, n, c)
    case Err(e) =>
      AdvancesReflexive(s, n);
      Run(s, Fail(e))
    case Ok((t, changes)) =>
      RefinesXCount(s.grid, t.grid);
      var after := RowCascade(t, n, changes);
      AdvancesTransitive(s, t, after.state, n);
      after
  }

  /**
   * _iterate_rows on a state: visit each listed row in turn; the first
   * error stops everything, with the state reached so far.
   */
  function RowCascade(s: State, n: nat, indices: seq<nat>): (res: Run)
    requires Wf(s, n) && forall k :: 0 <= k < |indices| ==> indices[k] < n
    ensures Advances(s, res.state, n)
    ensures res.outcome.Fail? ==> res.outcome.error == InvalidCharacter || res.outcome.error == NoSolutionsFound
    decreases XCount(s.grid), |indices|, 1
  {
    if indices == [] then
      AdvancesReflexive(s, n);
      Run(s, Pass)
    else
      var first := RowVisit(s, n, indices[0]);
      if first.outcome.Fail? then first
      else
        RefinesXCount(s.grid, first.state.grid);
        var rest := RowCascade(first.state, n, indices[1..]);
        AdvancesTransitive(s, first.state, rest.state, n);
        rest
  }

  /** _iterate_columns on a state: visit each listed column in turn. */
  function ColumnCascade(s: State, n: nat, indices: seq<nat>): (res: Run)
    requires Wf(s, n) && forall k :: 0 <= k < |indices| ==> indices[k] < n
    ensures Advances(s, res.state, n)
    ensures res.outcome.Fail? ==> res.outcome.error == InvalidCharacter || res.outcome.error == NoSolutionsFound
    decreases XCount(s.grid), |indices|, 1
  {
    if indices == [] then
      AdvancesReflexive(s, n);
      Run(s, Pass)
    else
      var first := ColumnVisit(s, n, indices[0]);
      if first.outcome.Fail? then first
      else
        RefinesXCount(s.grid, first.state.grid);
        var rest := ColumnCascade(first.state, n, indices[1..]);
        AdvancesTransitive(s, first.state, rest.state, n);
        rest
  }

  /** The indices 0 .. n-1 (range(size)). */
  function Upto(n: nat): (r: seq<nat>)
    ensures |r| == n && forall k :: 0 <= k < n ==> r[k] == k
  {
    seq(n, k requires 0 <= k < n => k)
  }

  /** _loop on a state: every row with its cascade, then every column with its cascade. */
  function Sweep(s: State, n: nat): (res: Run)
    requires Wf(s, n)
    ensures Advances(s, res.state, n)
    ensures res.outcome.Fail? ==> res.outcome.error == InvalidCharacter || res.outcome.error == NoSolutionsFound
  {
    var first := RowCascade(s, n, Upto(n));
    if first.outcome.Fail? then first
    else
      var second := ColumnCascade(first.state, n, Upto(n));
      AdvancesTransitive(s, first.state, second.state, n);
      second
  }

  /** How a call of solve ends. */
  datatype Status = Solved | Unfinished | Failed(error: Error)

  /**
   * solve on a state, allowed at most fuel sweeps: it stops as soon as no
   * cell is unknown, and a sweep that raises ends it with that error.
   * Unfinished means the source would still be sweeping.
   */
  function Rounds(s: State, n: nat, fuel: nat): (res: (State, Status))
    requires Wf(s, n)
    ensures Advances(s, res.0, n)
    ensures res.1 == Solved ==> 'X' !in res.0.grid
    ensures res.1 == Unfinished ==> 'X' in res.0.grid
    ensures res.1.Failed? ==> res.1.error == InvalidCharacter || res.1.error == NoSolutionsFound
    decreases fuel
  {
    if 'X' !in s.grid then
      AdvancesReflexive(s, n);
      (s, Solved)
    else if fuel == 0 then
      AdvancesReflexive(s, n);
      (s, Unfinished)
    else
      var r := Sweep(s, n);
      if r.outcome.Fail? then (r.state, Failed(r.outcome.error))
      else
        var rest := Rounds(r.state, n, fuel - 1);
        AdvancesTransitive(s, r.state, rest.0, n);
        rest
  }

  /** Once a run of solve has ended (solved or failed), more fuel changes nothing. */
  lemma {:induction false} RoundsSettled(s: State, n: nat, fuel: nat, more: nat)
    requires Wf(s, n) && fuel <= more && Rounds(s, n, fuel).1 != Unfinished
    ensures Rounds(s, n, more) == Rounds(s, n, fuel)
    decreases fuel
  {
    if 'X' in s.grid {
      var r := Sweep(s, n);
      if r.outcome.Pass? {
        RoundsSettled(r.state, n, fuel - 1, more - 1);
      }
    }
  }
}
