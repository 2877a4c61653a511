/**
 * A puzzle cut into square blocks of side subsize. Each block is also solved
 * as a puzzle of its own; between sweeps the blocks are merged into the whole
 * grid and the whole grid is cut into blocks again.
 */
module Special {
  import opened Grid
  import opened Errors
  import opened Puzzle
  import opened Propagation

  /** Position (x, y) comes before (a, b) in the row-by-row order of solve's loops. */
  predicate Before(x: nat, y: nat, a: nat, b: nat)
  {
    x < a || (x == a && y < b)
  }

  /** The subpuzzle at block position (a, b). */
  ghost function At(subs: seq<seq<Binairo>>, a: nat, b: nat): (p: Binairo)
    requires a < |subs| && b < |subs[a]|
    ensures p == subs[a][b]
  {
    subs[a][b]
  }

  /**
   * No puzzle object occurs twice in the grid of subpuzzles. Stated over At
   * so that it is only instantiated where DisjointApart is called.
   */
  ghost predicate Disjoint(subs: seq<seq<Binairo>>)
  {
    forall a: nat, b: nat, c: nat, d: nat ::
      a < |subs| && b < |subs[a]| && c < |subs| && d < |subs[c]| && (a != c || b != d) ==>
      At(subs, a, b) != At(subs, c, d)
  }

  /** In a disjoint grid, the subpuzzle at (a, b) is no other position's. */
  lemma DisjointApart(subs: seq<seq<Binairo>>, a: nat, b: nat)
    requires Disjoint(subs) && a < |subs| && b < |subs[a]|
    ensures forall x, y :: 0 <= x < |subs| && 0 <= y < |subs[x]| && (x != a || y != b) ==> subs[x][y] != subs[a][b]
  {
    forall x, y | 0 <= x < |subs| && 0 <= y < |subs[x]| && (x != a || y != b)
      ensures subs[x][y] != subs[a][b]
    {
      assert At(subs, x, y) != At(subs, a, b);
    }
  }

  /** A band of distinct puzzles none of which is in made extends a disjoint grid drawn from made. */
  lemma DisjointSnoc(subs: seq<seq<Binairo>>, band: seq<Binairo>, made: set<object>)
    requires Disjoint(subs)
    requires forall x, y :: 0 <= x < |subs| && 0 <= y < |subs[x]| ==> subs[x][y] in made
    requires forall y :: 0 <= y < |band| ==> band[y] !in made
    requires forall b, c :: 0 <= b < c < |band| ==> band[b] != band[c]
    ensures Disjoint(subs + [band])
  {
    var next := subs + [band];
    forall a: nat, b: nat, c: nat, d: nat | a < |next| && b < |next[a]| && c < |next| && d < |next[c]| && (a != c || b != d)
      ensures At(next, a, b) != At(next, c, d)
    {
      if a < |subs| && c < |subs| {
        assert At(subs, a, b) != At(subs, c, d);
      } else if a < |subs| {
        assert next[a][b] in made;
      } else if c < |subs| {
        assert next[c][d] in made;
      } else if b > d {
        assert band[d] != band[b];
      }
    }
  }

  /** The grid strings of one row of subpuzzles, left to right. */
  ghost function BandTexts(band: seq<Binairo>): (ts: seq<string>)
    reads band
    ensures |ts| == |band| && forall b :: 0 <= b < |band| ==> ts[b] == band[b].puzzle
  {
    if band == [] then [] else BandTexts(band[..|band| - 1]) + [band[|band| - 1].puzzle]
  }

  /**
   * Progress of _update_puzzle, on grid values: in g, the first a block rows
   * hold the joined rows of the subpuzzle texts, the rest are those of g0.
   */
  ghost predicate BandsWritten(g: string, g0: string, k: nat, m: nat, a: nat, texts: seq<seq<string>>)
  {
    |g| == (m * k) * (m * k) && |g0| == |g| && a <= m && |texts| == m &&
    (forall x :: 0 <= x < m ==> |texts[x]| == m) &&
    (forall x, y :: 0 <= x < m && 0 <= y < m ==> |texts[x][y]| == k * k) &&
    forall x, i :: 0 <= x < m && 0 <= i < k ==>
      BandRow(g, k, m, x, i) == if x < a then JoinedRow(texts[x], k, i) else BandRow(g0, k, m, x, i)
  }

  /**
   * Writing block row a: when after differs from before only in block row a,
   * which now holds the joined rows of texts[a], one more block row is done.
   */
  lemma BandWritten(g0: string, before: string, after: string, k: nat, m: nat, a: nat, texts: seq<seq<string>>)
    requires BandsWritten(before, g0, k, m, a, texts) && a < m && |after| == |before|
    requires forall i :: 0 <= i < k ==> BandRow(after, k, m, a, i) == JoinedRow(texts[a], k, i)
    requires forall x, i :: 0 <= x < m && x != a && 0 <= i < k ==> BandRow(after, k, m, x, i) == BandRow(before, k, m, x, i)
    ensures BandsWritten(after, g0, k, m, a + 1, texts)
  {
  }

  /** The states of one row of subpuzzles, left to right. */
  ghost function BandStates(band: seq<Binairo>): (ss: seq<State>)
    reads band
    ensures |ss| == |band| && forall b :: 0 <= b < |band| ==> ss[b] == band[b].Snapshot()
  {
    if band == [] then [] else BandStates(band[..|band| - 1]) + [band[|band| - 1].Snapshot()]
  }

  /** An m-by-m grid of states of puzzles of side k: the subpuzzles of a puzzle of side m*k. */
  predicate Tiled(subs: seq<seq<State>>, k: nat, m: nat)
  {
    |subs| == m && (forall a :: 0 <= a < m ==> |subs[a]| == m) &&
    forall a, b :: 0 <= a < m && 0 <= b < m ==> Wf(subs[a][b], k)
  }

  /** The grid strings of the subpuzzle states. */
  function Grids(subs: seq<seq<State>>, k: nat, m: nat): (ts: seq<seq<string>>)
    requires Tiled(subs, k, m)
    ensures |ts| == m && forall a :: 0 <= a < m ==> |ts[a]| == m
    ensures forall a, b :: 0 <= a < m && 0 <= b < m ==> ts[a][b] == subs[a][b].grid && |ts[a][b]| == k * k
  {
    seq(m, a requires 0 <= a < m => seq(m, b requires 0 <= b < m => subs[a][b].grid))
  }

  /** Every subpuzzle state holds its block of the whole grid g. */
  predicate SyncedStates(g: string, subs: seq<seq<State>>, k: nat, m: nat)
    requires |g| == (m * k) * (m * k) && Tiled(subs, k, m)
  {
    forall a, b :: 0 <= a < m && 0 <= b < m ==> subs[a][b].grid == BlockAt(g, k, m, a, b)
  }

  /**
   * _update_subpuzzles on values: every subpuzzle state takes its block of
   * g as its grid and keeps its pools.
   */
  function Recut(g: string, subs: seq<seq<State>>, k: nat, m: nat): (res: seq<seq<State>>)
    requires |g| == (m * k) * (m * k) && Tiled(subs, k, m)
    ensures Tiled(res, k, m) && SyncedStates(g, res, k, m)
    ensures forall a, b :: 0 <= a < m && 0 <= b < m ==>
      res[a][b].rows == subs[a][b].rows && res[a][b].columns == subs[a][b].columns
  {
    seq(m, a requires 0 <= a < m =>
      seq(m, b requires 0 <= b < m => State(BlockAt(g, k, m, a, b), subs[a][b].rows, subs[a][b].columns)))
  }

  /**
   * The inner loop of solve's first step on values: _loop on each state of
   * a band in turn, left to right. The first failure stops it, and the
   * states after it are left as they were.
   */
  function SweepBand(band: seq<State>, k: nat): (res: (seq<State>, Outcome))
    requires forall y :: 0 <= y < |band| ==> Wf(band[y], k)
    ensures |res.0| == |band|
    ensures forall y :: 0 <= y < |band| ==> Wf(res.0[y], k) && Refines(band[y].grid, res.0[y].grid)
    ensures res.1.Fail? ==> res.1.error == InvalidCharacter || res.1.error == NoSolutionsFound
    decreases |band|
  {
    if band == [] then ([], Pass)
    else
      var first := Sweep(band[0], k);
      if first.outcome.Fail? then ([first.state] + band[1..], first.outcome)
      else
        var rest := SweepBand(band[1..], k);
        ([first.state] + rest.0, rest.1)
  }

  /** The whole first step of a round on values: SweepBand on each band, top to bottom, up to the first failure. */
  function SweepBands(subs: seq<seq<State>>, k: nat): (res: (seq<seq<State>>, Outcome))
    requires forall x, y :: 0 <= x < |subs| && 0 <= y < |subs[x]| ==> Wf(subs[x][y], k)
    ensures |res.0| == |subs| && forall x :: 0 <= x < |subs| ==> |res.0[x]| == |subs[x]|
    ensures forall x, y :: 0 <= x < |subs| && 0 <= y < |subs[x]| ==>
      Wf(res.0[x][y], k) && Refines(subs[x][y].grid, res.0[x][y].grid)
    ensures res.1.Fail? ==> res.1.error == InvalidCharacter || res.1.error == NoSolutionsFound
    decreases |subs|
  {
    if subs == [] then ([], Pass)
    else
      var first := SweepBand(subs[0], k);
      if first.1.Fail? then ([first.0] + subs[1..], first.1)
      else
        var rest := SweepBands(subs[1..], k);
        ([first.0] + rest.0, rest.1)
  }

  /**
   * after is what sweeping before in order leaves when the first failure is
   * at fb, or fb is |before| and nothing failed: the states before fb are
   * swept with Pass, the one at fb gives the outcome o, the rest are as they were.
   */
  predicate BandSwept(before: seq<State>, after: seq<State>, k: nat, o: Outcome, fb: nat)
    requires forall y :: 0 <= y < |before| ==> Wf(before[y], k)
  {
    |after| == |before| && fb <= |before| && (o.Pass? <==> fb == |before|) &&
    forall y :: 0 <= y < |before| ==>
      if y < fb then Run(after[y], Pass) == Sweep(before[y], k)
      else if y == fb then Run(after[y], o) == Sweep(before[y], k)
      else after[y] == before[y]
  }

  /** Past the first state, when it did not fail: it was swept with Pass, and the rest are related in the same way. */
  lemma BandSweptTail(before: seq<State>, after: seq<State>, k: nat, o: Outcome, fb: nat)
    requires forall y :: 0 <= y < |before| ==> Wf(before[y], k)
    requires BandSwept(before, after, k, o, fb) && 0 < fb
    ensures Run(after[0], Pass) == Sweep(before[0], k)
    ensures BandSwept(before[1..], after[1..], k, o, fb - 1)
  {
  }

  /** When the first state holds the failure, the states after it are untouched. */
  lemma BandSweptHead(before: seq<State>, after: seq<State>, k: nat, o: Outcome)
    requires forall y :: 0 <= y < |before| ==> Wf(before[y], k)
    requires BandSwept(before, after, k, o, 0) && before != []
    ensures Run(after[0], o) == Sweep(before[0], k) && o.Fail?
    ensures after == [after[0]] + before[1..]
  {
  }

  /** SweepBand is the only result that sweeps a band in order up to its first failure. */
  lemma {:induction false} BandSweptIsSweepBand(before: seq<State>, after: seq<State>, k: nat, o: Outcome, fb: nat)
    requires forall y :: 0 <= y < |before| ==> Wf(before[y], k)
    requires BandSwept(before, after, k, o, fb)
    ensures SweepBand(before, k) == (after, o)
    decreases |before|
  {
    if before != [] {
      if fb == 0 {
        BandSweptHead(before, after, k, o);
      } else {
        BandSweptTail(before, after, k, o, fb);
        BandSweptIsSweepBand(before[1..], after[1..], k, o, fb - 1);
        assert after == [after[0]] + after[1..];
      }
    }
  }

  /**
   * after is what sweeping the bands of before in order leaves when the
   * first failure is in band fa at fb, or fa is |before| and nothing failed.
   */
  predicate GridSwept(before: seq<seq<State>>, after: seq<seq<State>>, k: nat, o: Outcome, fa: nat, fb: nat)
    requires forall x, y :: 0 <= x < |before| && 0 <= y < |before[x]| ==> Wf(before[x][y], k)
  {
    |after| == |before| && fa <= |before| && (o.Pass? <==> fa == |before|) &&
    forall x :: 0 <= x < |before| ==>
      if x < fa then BandSwept(before[x], after[x], k, Pass, |before[x]|)
      else if x == fa then BandSwept(before[x], after[x], k, o, fb)
      else after[x] == before[x]
  }

  /** Past the first band, when it did not fail: the first band swept with Pass, the rest related in the same way. */
  lemma GridSweptTail(before: seq<seq<State>>, after: seq<seq<State>>, k: nat, o: Outcome, fa: nat, fb: nat)
    requires forall x, y :: 0 <= x < |before| && 0 <= y < |before[x]| ==> Wf(before[x][y], k)
    requires GridSwept(before, after, k, o, fa, fb) && 0 < fa
    ensures BandSwept(before[0], after[0], k, Pass, |before[0]|)
    ensures GridSwept(before[1..], after[1..], k, o, fa - 1, fb)
  {
  }

  /** When the first band holds the failure, the bands after it are untouched. */
  lemma GridSweptHead(before: seq<seq<State>>, after: seq<seq<State>>, k: nat, o: Outcome, fb: nat)
    requires forall x, y :: 0 <= x < |before| && 0 <= y < |before[x]| ==> Wf(before[x][y], k)
    requires GridSwept(before, after, k, o, 0, fb) && before != []
    ensures BandSwept(before[0], after[0], k, o, fb) && o.Fail?
    ensures after == [after[0]] + before[1..]
  {
  }

  /** SweepBands is the only result that sweeps the bands in order up to the first failure. */
  lemma {:induction false} GridSweptIsSweepBands(before: seq<seq<State>>, after: seq<seq<State>>, k: nat, o: Outcome, fa: nat, fb: nat)
    requires forall x, y :: 0 <= x < |before| && 0 <= y < |before[x]| ==> Wf(before[x][y], k)
    requires GridSwept(before, after, k, o, fa, fb)
    ensures SweepBands(before, k) == (after, o)
    decreases |before|
  {
    if before != [] {
      if fa == 0 {
        GridSweptHead(before, after, k, o, fb);
        BandSweptIsSweepBand(before[0], after[0], k, o, fb);
      } else {
        GridSweptTail(before, after, k, o, fa, fb);
        BandSweptIsSweepBand(before[0], after[0], k, Pass, |before[0]|);
        GridSweptIsSweepBands(before[1..], after[1..], k, o, fa - 1, fb);
        assert after == [after[0]] + after[1..];
      }
    }
  }

  /** Two m-by-m grids of states with the same state at every position are equal. */
  lemma SameStates(a: seq<seq<State>>, b: seq<seq<State>>, m: nat)
    requires |a| == m && |b| == m && forall x :: 0 <= x < m ==> |a[x]| == m && |b[x]| == m
    requires forall x, y :: 0 <= x < m && 0 <= y < m ==> a[x][y] == b[x][y]
    ensures a == b
  {
    forall x | 0 <= x < m
      ensures a[x] == b[x]
    {
      assert forall y :: 0 <= y < m ==> a[x][y] == b[x][y];
    }
  }

  /**
   * The row-major form of the same relation, as the loops of solve leave
   * the subpuzzles: positions before (fa, fb) swept with Pass, (fa, fb)
   * giving the outcome, the rest untouched. It is SweepBands.
   */
  lemma InOrderIsSweepBands(before: seq<seq<State>>, after: seq<seq<State>>, k: nat, m: nat, o: Outcome, fa: nat, fb: nat)
    requires Tiled(before, k, m) && |after| == m && forall x :: 0 <= x < m ==> |after[x]| == m
    requires fa <= m && fb <= m && (o.Pass? <==> fa == m) && (o.Fail? ==> fb < m)
    requires forall x, y :: 0 <= x < m && 0 <= y < m ==>
      if Before(x, y, fa, fb) then Run(after[x][y], Pass) == Sweep(before[x][y], k)
      else if x == fa && y == fb then Run(after[x][y], o) == Sweep(before[x][y], k)
      else after[x][y] == before[x][y]
    ensures SweepBands(before, k) == (after, o)
  {
    forall x | 0 <= x < m
      ensures if x < fa then BandSwept(before[x], after[x], k, Pass, m)
        else if x == fa then BandSwept(before[x], after[x], k, o, fb)
        else after[x] == before[x]
    {
      if x > fa {
        assert forall y :: 0 <= y < m ==> after[x][y] == before[x][y];
      }
    }
    assert GridSwept(before, after, k, o, fa, fb);
    GridSweptIsSweepBands(before, after, k, o, fa, fb);
  }

  /**
   * One round of solve on values, from the whole puzzle's state w and the
   * subpuzzle states: sweep the subpuzzles (SweepBands); merge them into the
   * whole grid (_update_puzzle, Grid.Join), keeping the whole puzzle's pools;
   * sweep the whole puzzle; cut it into blocks again (Recut). The first
   * failure ends the round there.
   */
  function SpecialRound(w: State, subs: seq<seq<State>>, k: nat, m: nat): (res: (State, seq<seq<State>>, Outcome))
    requires Wf(w, m * k) && Tiled(subs, k, m)
    ensures Wf(res.0, m * k) && Tiled(res.1, k, m)
    ensures res.2.Fail? ==> res.2.error == InvalidCharacter || res.2.error == NoSolutionsFound
  {
    var swept := SweepBands(subs, k);
    if swept.1.Fail? then (w, swept.0, swept.1)
    else
      var merged := State(Join(Grids(swept.0, k, m), k, m), w.rows, w.columns);
      var whole := Sweep(merged, m * k);
      if whole.outcome.Fail? then (whole.state, swept.0, whole.outcome)
      else (whole.state, Recut(whole.state.grid, swept.0, k, m), Pass)
  }

  /** A round whose sweep of the subpuzzles fails leaves the whole puzzle's state alone. */
  lemma SpecialRoundStopped(w: State, subs: seq<seq<State>>, k: nat, m: nat, swept: seq<seq<State>>, o: Outcome)
    requires Wf(w, m * k) && Tiled(subs, k, m) && SweepBands(subs, k) == (swept, o) && o.Fail?
    ensures SpecialRound(w, subs, k, m) == (w, swept, o)
  {
  }

  /**
   * A round whose sweep of the subpuzzles passes ends with the sweep of the
   * merged whole puzzle, and recuts the subpuzzles when that passes too.
   */
  lemma SpecialRoundMerged(w: State, subs: seq<seq<State>>, k: nat, m: nat, swept: seq<seq<State>>, whole: State, o: Outcome)
    requires Wf(w, m * k) && Tiled(subs, k, m) && SweepBands(subs, k) == (swept, Pass)
    requires Run(whole, o) == Sweep(State(Join(Grids(swept, k, m), k, m), w.rows, w.columns), m * k)
    ensures Tiled(swept, k, m) && |whole.grid| == (m * k) * (m * k)
    ensures SpecialRound(w, subs, k, m) == (whole, if o.Pass? then Recut(whole.grid, swept, k, m) else swept, o)
  {
  }

  /**
   * The fuel left after one round. Kept as a function of its own so that
   * the fuel of the next call is the same term wherever it is named.
   */
  function Spent(fuel: nat): (left: nat)
    requires 0 < fuel
    ensures left < fuel
  {
    fuel - 1
  }

  /**
   * solve on values, allowed at most fuel rounds: it stops as soon as the
   * whole grid has no unknown cell, and a failing round ends it with that
   * error. Unfinished means the source would still be looping.
   */
  function SpecialRounds(w: State, subs: seq<seq<State>>, k: nat, m: nat, fuel: nat): (res: (State, seq<seq<State>>, Status))
    requires Wf(w, m * k) && Tiled(subs, k, m)
    ensures Wf(res.0, m * k) && Tiled(res.1, k, m)
    ensures res.2 == Solved ==> 'X' !in res.0.grid
    ensures res.2 == Unfinished ==> 'X' in res.0.grid
    ensures res.2.Failed? ==> res.2.error == InvalidCharacter || res.2.error == NoSolutionsFound
    decreases fuel
  {
    if 'X' !in w.grid then (w, subs, Solved)
    else if fuel == 0 then (w, subs, Unfinished)
    else
      var r := SpecialRound(w, subs, k, m);
      if r.2.Fail? then (r.0, r.1, Failed(r.2.error))
      else SpecialRounds(r.0, r.1, k, m, Spent(fuel))
  }

  /**
   * From subpuzzles that hold their blocks, a round only fills in unknown
   * cells of the whole grid, and a round that passes leaves the
   * subpuzzles holding their blocks again.
   */
  lemma SpecialRoundRefines(w: State, subs: seq<seq<State>>, k: nat, m: nat)
    requires Wf(w, m * k) && Tiled(subs, k, m) && SyncedStates(w.grid, subs, k, m)
    ensures Refines(w.grid, SpecialRound(w, subs, k, m).0.grid)
    ensures SpecialRound(w, subs, k, m).2.Pass? ==>
      SyncedStates(SpecialRound(w, subs, k, m).0.grid, SpecialRound(w, subs, k, m).1, k, m)
  {
    var swept := SweepBands(subs, k);
    if swept.1.Pass? {
      var merged := Join(Grids(swept.0, k, m), k, m);
      var whole := Sweep(State(merged, w.rows, w.columns), m * k);
      SpecialRoundMerged(w, subs, k, m, swept.0, whole.state, whole.outcome);
      assert Refines(w.grid, whole.state.grid) by {
        MergeRefines(w.grid, subs, swept.0, k, m);
        RefinesTransitive(w.grid, merged, whole.state.grid);
      }
    }
  }

  /** Subpuzzles that held their blocks of g and have only gained digits merge into a grid that refines g. */
  lemma MergeRefines(g: string, subs: seq<seq<State>>, swept: seq<seq<State>>, k: nat, m: nat)
    requires |g| == (m * k) * (m * k) && Tiled(subs, k, m) && Tiled(swept, k, m) && SyncedStates(g, subs, k, m)
    requires forall a, b :: 0 <= a < m && 0 <= b < m ==> Refines(subs[a][b].grid, swept[a][b].grid)
    ensures Refines(g, Join(Grids(swept, k, m), k, m))
  {
    var merged := Join(Grids(swept, k, m), k, m);
    forall a, b | 0 <= a < m && 0 <= b < m
      ensures Refines(BlockAt(g, k, m, a, b), BlockAt(merged, k, m, a, b))
    {
      assert BlockAt(merged, k, m, a, b) == swept[a][b].grid;
    }
    BlocksRefine(g, merged, k, m);
  }

  /** Unfolding SpecialRounds once: a round that passes leaves the rest of the run to SpecialRounds with one less fuel. */
  lemma SpecialRoundsStep(w: State, subs: seq<seq<State>>, k: nat, m: nat, fuel: nat)
    requires Wf(w, m * k) && Tiled(subs, k, m) && 'X' in w.grid && 0 < fuel
    ensures var r := SpecialRound(w, subs, k, m);
      if r.2.Fail? then SpecialRounds(w, subs, k, m, fuel) == (r.0, r.1, Failed(r.2.error))
      else SpecialRounds(w, subs, k, m, fuel) == SpecialRounds(r.0, r.1, k, m, Spent(fuel))
  {
  }

  /** From subpuzzles that hold their blocks, solve only fills in unknown cells of the whole grid. */
  lemma SpecialRoundsRefine(w: State, subs: seq<seq<State>>, k: nat, m: nat, fuel: nat)
    requires Wf(w, m * k) && Tiled(subs, k, m) && SyncedStates(w.grid, subs, k, m)
    ensures Refines(w.grid, SpecialRounds(w, subs, k, m, fuel).0.grid)
    decreases fuel
  {
    if 'X' in w.grid && 0 < fuel {
      var r := SpecialRound(w, subs, k, m);
      SpecialRoundsStep(w, subs, k, m, fuel);
      SpecialRoundRefines(w, subs, k, m);
      if r.2.Pass? {
        var rest := SpecialRounds(r.0, r.1, k, m, Spent(fuel));
        SpecialRoundsRefine(r.0, r.1, k, m, Spent(fuel));
        RefinesTransitive(w.grid, r.0.grid, rest.0.grid);
      }
    }
  }

  class SpecialBinairo {
    var puzzle: Binairo
    var subsize: nat
    var subpuzzles: seq<seq<Binairo>>
    ghost var Repr: set<object>

    /** The whole puzzle has side m*subsize, for the m-by-m grid of subpuzzles described by Blocks. */
    ghost predicate Valid()
      reads this, Repr
    {
      this in Repr && puzzle in Repr && puzzle.Valid() &&
      puzzle.size == |subpuzzles| * subsize && Blocks()
    }

    /**
     * subpuzzles is an m-by-m grid, m = |subpuzzles|, of distinct puzzles of
     * side subsize, none of them the whole puzzle. This part does not read
     * the whole puzzle, so writing to the whole puzzle keeps it.
     */
    ghost predicate Blocks()
      reads this, Repr - {puzzle}
    {
      0 < subsize &&
      (forall a :: 0 <= a < |subpuzzles| ==> |subpuzzles[a]| == |subpuzzles|) &&
      (forall a, b :: 0 <= a < |subpuzzles| && 0 <= b < |subpuzzles| ==>
        subpuzzles[a][b] in Repr && subpuzzles[a][b] != puzzle &&
        subpuzzles[a][b].Valid() && subpuzzles[a][b].size == subsize) &&
      Disjoint(subpuzzles)
    }

    /** Every subpuzzle holds exactly its block of the whole puzzle. */
    ghost predicate Synced()
      reads this, Repr
      requires Valid()
    {
      forall a, b :: 0 <= a < |subpuzzles| && 0 <= b < |subpuzzles| ==>
        subpuzzles[a][b].puzzle == BlockAt(puzzle.puzzle, subsize, |subpuzzles|, a, b)
    }

    /** The states of the subpuzzles, block row by block row; the whole puzzle is not read. */
    ghost function States(): (ss: seq<seq<State>>)
      reads this, Repr - {puzzle}
      requires Blocks()
      ensures Tiled(ss, subsize, |subpuzzles|)
      ensures forall a, b :: 0 <= a < |subpuzzles| && 0 <= b < |subpuzzles| ==> ss[a][b] == subpuzzles[a][b].Snapshot()
    {
      seq(|subpuzzles|, a requires 0 <= a < |subpuzzles| && Blocks() reads this, Repr - {puzzle} => BandStates(subpuzzles[a]))
    }

    /** One row of blocks: a fresh, distinct subpuzzle holding each of the given block texts. */
    static method MakeBand(blocks: seq<string>, k: nat) returns (band: seq<Binairo>)
      requires forall b :: 0 <= b < |blocks| ==> |blocks[b]| == k * k
      ensures |band| == |blocks|
      ensures forall b :: 0 <= b < |blocks| ==> fresh(band[b])
      ensures forall b :: 0 <= b < |blocks| ==> band[b].Valid() && band[b].size == k && band[b].puzzle == blocks[b]
      ensures forall b :: 0 <= b < |blocks| ==> band[b].FullPools()
      ensures forall b, c :: 0 <= b < c < |blocks| ==> band[b] != band[c]
    {
      band := [];
      for b := 0 to |blocks|
        invariant |band| == b
        invariant forall x :: 0 <= x < b ==> fresh(band[x])
        invariant forall x :: 0 <= x < b ==> band[x].Valid() && band[x].size == k && band[x].puzzle == blocks[x]
        invariant forall x :: 0 <= x < b ==> band[x].FullPools()
        invariant forall x, y :: 0 <= x < y < b ==> band[x] != band[y]
      {
        var sub := new Binairo(blocks[b], k);
        band := band + [sub];
      }
    }

    /** The m-by-m grid of fresh, pairwise distinct subpuzzles holding the given block texts. */
    static method MakeBands(blocks: seq<seq<string>>, k: nat) returns (bands: seq<seq<Binairo>>, ghost made: set<object>)
      requires forall a :: 0 <= a < |blocks| ==> |blocks[a]| == |blocks|
      requires forall a, b :: 0 <= a < |blocks| && 0 <= b < |blocks[a]| ==> |blocks[a][b]| == k * k
      ensures |bands| == |blocks| && forall x :: 0 <= x < |blocks| ==> |bands[x]| == |blocks|
      ensures forall o :: o in made ==> fresh(o)
      ensures forall x, y :: 0 <= x < |blocks| && 0 <= y < |blocks| ==> bands[x][y] in made
      ensures forall x, y :: 0 <= x < |blocks| && 0 <= y < |blocks| ==>
        bands[x][y].Valid() && bands[x][y].size == k && bands[x][y].puzzle == blocks[x][y]
      ensures forall x, y :: 0 <= x < |blocks| && 0 <= y < |blocks| ==> bands[x][y].FullPools()
      ensures Disjoint(bands)
    {
      var m := |blocks|;
      bands := [];
      made := {};
      for a := 0 to m
        invariant |bands| == a
        invariant forall x :: 0 <= x < a ==> |bands[x]| == m
        invariant forall o :: o in made ==> fresh(o)
        invariant forall x, y :: 0 <= x < a && 0 <= y < m ==> bands[x][y] in made
        invariant forall x, y :: 0 <= x < a && 0 <= y < m ==>
          bands[x][y].Valid() && bands[x][y].size == k && bands[x][y].puzzle == blocks[x][y]
        invariant forall x, y :: 0 <= x < a && 0 <= y < m ==> bands[x][y].FullPools()
        invariant Disjoint(bands)
      {
        var band := MakeBand(blocks[a], k);
        DisjointSnoc(bands, band, made);
        bands := bands + [band];
        made := made + set y | 0 <= y < m :: band[y];
      }
    }

    /**
     * __init__ given a puzzle: the whole puzzle is a copy of it, and there is
     * one subpuzzle per block.
     */
    constructor (parent: Binairo, subsize: nat)
      requires parent.Valid() && 0 < subsize && parent.size % subsize == 0
      ensures Valid() && Synced()
      ensures puzzle.puzzle == parent.puzzle && puzzle.size == parent.size
      ensures this.subsize == subsize && |subpuzzles| == parent.size / subsize
      ensures puzzle.FullPools()
      ensures forall a, b :: 0 <= a < |subpuzzles| && 0 <= b < |subpuzzles| ==> subpuzzles[a][b].FullPools()
      ensures fresh(Repr)
    {
      var whole := new Binairo.Copy(parent);
      var m := whole.size / subsize;
      var bands, made := MakeBands(Partition(whole.puzzle, subsize, m), subsize);
      puzzle := whole;
      this.subsize := subsize;
      subpuzzles := bands;
      Repr := {this, whole} + made;
    }

    /**
     * __init__ from a puzzle string: InvalidSize when the string is not
     * square, then ZeroStep for a block side of 0.
     */
    static method Create(text: string, subsize: nat) returns (r: Result<SpecialBinairo>)
      requires forall k: nat :: Square(k) == |text| && 0 < subsize ==> k % subsize == 0
      ensures (forall k: nat :: Square(k) != |text|) ==> r == Err(InvalidSize)
      ensures (exists k: nat :: Square(k) == |text|) && subsize == 0 ==> r == Err(ZeroStep)
      ensures (exists k: nat :: Square(k) == |text|) && 0 < subsize ==>
        r.Ok? && fresh(r.value.Repr) && r.value.Valid() && r.value.Synced() &&
        r.value.puzzle.puzzle == text && r.value.subsize == subsize
      ensures r.Ok? ==> r.value.puzzle.FullPools() && forall a, b ::
        0 <= a < |r.value.subpuzzles| && 0 <= b < |r.value.subpuzzles| ==> r.value.subpuzzles[a][b].FullPools()
    {
      var parent := Binairo.Create(text);
      if parent.Err? {
        return Err(parent.error);
      }
      if subsize == 0 {
        return Err(ZeroStep);
      }
      var p := parent.value;
      var special := new SpecialBinairo(p, subsize);
      return Ok(special);
    }

    /** Lines 24-26 of _update_puzzle: append row j of one block to rows[j], for every j. */
    static method AppendBlock(rows: seq<string>, text: string, k: nat) returns (out: seq<string>)
      requires |rows| == k && |text| == k * k
      ensures |out| == k
      ensures forall j :: 0 <= j < k ==> out[j] == rows[j] + Row(text, k, j)
    {
      var lines := seq(k, j requires 0 <= j < k => Row(text, k, j));
      out := rows;
      for j := 0 to k
        invariant |out| == k
        invariant forall i :: 0 <= i < k ==> out[i] == if i < j then rows[i] + lines[i] else rows[i]
      {
        out := out[j := out[j] + lines[j]];
      }
    }

    /**
     * The rows list of _update_puzzle for block row a: row j is row j of
     * every subpuzzle of that block row, joined left to right.
     */
    method JoinBand(a: nat) returns (rows: seq<string>)
      requires Valid() && a < |subpuzzles|
      ensures |rows| == subsize
      ensures forall j :: 0 <= j < subsize ==> rows[j] == JoinedRow(BandTexts(subpuzzles[a]), subsize, j)
    {
      var k, band := subsize, subpuzzles[a];
      ghost var texts := BandTexts(band);
      assert forall x :: 0 <= x < |band| ==> |texts[x]| == k * k;
      rows := seq(k, _ => "");
      for b := 0 to |band|
        invariant |rows| == k
        invariant forall j :: 0 <= j < k ==> rows[j] == JoinedRow(texts[..b], k, j)
      {
        rows := AppendBlock(rows, band[b].puzzle, k);
        forall j | 0 <= j < k
          ensures rows[j] == JoinedRow(texts[..b + 1], k, j)
        {
          JoinedRowSnoc(texts, k, j, b);
        }
      }
      assert texts[..|band|] == texts;
    }

    /** The second half of _update_puzzle for block row a: write its rows into the whole puzzle. */
    method WriteBand(a: nat, rows: seq<string>)
      requires Valid() && a < |subpuzzles| && |rows| == subsize
      requires forall i :: 0 <= i < subsize ==> |rows[i]| == puzzle.size
      modifies puzzle
      ensures Valid() && puzzle.size == old(puzzle.size)
      ensures puzzle.possibleRows == old(puzzle.possibleRows) && puzzle.possibleColumns == old(puzzle.possibleColumns)
      ensures forall i :: 0 <= i < subsize ==> BandRow(puzzle.puzzle, subsize, |subpuzzles|, a, i) == rows[i]
      ensures forall x, i :: 0 <= x < |subpuzzles| && x != a && 0 <= i < subsize ==>
        BandRow(puzzle.puzzle, subsize, |subpuzzles|, x, i) == BandRow(old(puzzle.puzzle), subsize, |subpuzzles|, x, i)
    {
      var k, m := subsize, |subpuzzles|;
      for j := 0 to k
        invariant Valid() && puzzle.size == old(puzzle.size)
        invariant puzzle.possibleRows == old(puzzle.possibleRows) && puzzle.possibleColumns == old(puzzle.possibleColumns)
        invariant forall x, i :: 0 <= x < m && 0 <= i < k ==>
          BandRow(puzzle.puzzle, k, m, x, i) ==
            if x == a && i < j then rows[i] else BandRow(old(puzzle.puzzle), k, m, x, i)
      {
        ghost var before := puzzle.puzzle;
        IndexBound(a, j, k, m);
        var _ := puzzle.SetRow(a * k + j, rows[j]);
        BandRowsFromCells(before, puzzle.puzzle, k, m, a, j, rows[j]);
      }
    }

    /**
     * One pass of the outer loop of _update_puzzle: block row a of the whole
     * puzzle receives the rows of its subpuzzles, whose grids are texts.
     */
    method UpdateBand(a: nat, ghost g0: string, ghost texts: seq<seq<string>>)
      requires Valid() && a < |subpuzzles|
      requires BandsWritten(puzzle.puzzle, g0, subsize, |subpuzzles|, a, texts)
      requires forall x, y :: 0 <= x < |subpuzzles| && 0 <= y < |subpuzzles| ==> subpuzzles[x][y].puzzle == texts[x][y]
      modifies puzzle
      ensures Valid() && puzzle.size == old(puzzle.size)
      ensures puzzle.possibleRows == old(puzzle.possibleRows) && puzzle.possibleColumns == old(puzzle.possibleColumns)
      ensures BandsWritten(puzzle.puzzle, g0, subsize, |subpuzzles|, a + 1, texts)
    {
      var rows := JoinBand(a);
      assert BandTexts(subpuzzles[a]) == texts[a];
      ghost var before := puzzle.puzzle;
      WriteBand(a, rows);
      BandWritten(g0, before, puzzle.puzzle, subsize, |subpuzzles|, a, texts);
    }

    /** The outer loop of _update_puzzle, over the block rows; texts are the subpuzzles' grids. */
    method WriteBands(ghost texts: seq<seq<string>>)
      requires Valid() && |texts| == |subpuzzles|
      requires forall x :: 0 <= x < |subpuzzles| ==> |texts[x]| == |subpuzzles|
      requires forall x, y :: 0 <= x < |subpuzzles| && 0 <= y < |subpuzzles| ==> subpuzzles[x][y].puzzle == texts[x][y]
      modifies puzzle
      ensures Valid() && puzzle.size == old(puzzle.size)
      ensures puzzle.possibleRows == old(puzzle.possibleRows) && puzzle.possibleColumns == old(puzzle.possibleColumns)
      ensures BandsWritten(puzzle.puzzle, old(puzzle.puzzle), subsize, |subpuzzles|, |subpuzzles|, texts)
    {
      var k, m := subsize, |subpuzzles|;
      ghost var g0 := puzzle.puzzle;
      for a := 0 to m
        invariant Valid() && puzzle.size == m * k
        invariant puzzle.possibleRows == old(puzzle.possibleRows) && puzzle.possibleColumns == old(puzzle.possibleColumns)
        invariant forall x, y :: 0 <= x < m && 0 <= y < m ==> subpuzzles[x][y].puzzle == texts[x][y]
        invariant BandsWritten(puzzle.puzzle, g0, k, m, a, texts)
      {
        UpdateBand(a, g0, texts);
      }
    }

    /** The grid strings of every subpuzzle, block row by block row. */
    ghost method Texts() returns (texts: seq<seq<string>>)
      requires Valid()
      ensures |texts| == |subpuzzles| && forall x :: 0 <= x < |subpuzzles| ==> |texts[x]| == |subpuzzles|
      ensures forall x, y :: 0 <= x < |subpuzzles| && 0 <= y < |subpuzzles| ==> texts[x][y] == subpuzzles[x][y].puzzle
    {
      var m := |subpuzzles|;
      texts := [];
      for a := 0 to m
        invariant |texts| == a && forall x :: 0 <= x < a ==> |texts[x]| == m
        invariant forall x, y :: 0 <= x < a && 0 <= y < m ==> texts[x][y] == subpuzzles[x][y].puzzle
      {
        texts := texts + [BandTexts(subpuzzles[a])];
      }
    }

    /**
     * _update_puzzle: write every subpuzzle back into its block of the
     * whole puzzle. Afterwards every block equals its subpuzzle; when they
     * already did, the whole puzzle is unchanged.
     */
    method UpdatePuzzle()
      requires Valid()
      modifies puzzle
      ensures Valid() && Synced()
      ensures puzzle.size == old(puzzle.size)
      ensures puzzle.possibleRows == old(puzzle.possibleRows) && puzzle.possibleColumns == old(puzzle.possibleColumns)
      ensures old(Synced()) ==> puzzle.puzzle == old(puzzle.puzzle)
      ensures forall a, b :: 0 <= a < |subpuzzles| && 0 <= b < |subpuzzles| ==>
        subpuzzles[a][b].puzzle == old(subpuzzles[a][b].puzzle)
    {
      var k, m := subsize, |subpuzzles|;
      ghost var g0 := puzzle.puzzle;
      ghost var texts := Texts();
      WriteBands(texts);
      BlocksOfBands(puzzle.puzzle, k, m, texts);
      if old(Synced()) {
        BlocksDetermineGrid(g0, puzzle.puzzle, k, m);
      }
    }

    /** The assignment in _update_subpuzzles: subpuzzle (a, b) gets its block of the whole puzzle. */
    method SetBlock(a: nat, b: nat)
      requires Valid() && a < |subpuzzles| && b < |subpuzzles|
      modifies subpuzzles[a][b]
      ensures Valid()
      ensures subpuzzles[a][b].puzzle == BlockAt(puzzle.puzzle, subsize, |subpuzzles|, a, b)
      ensures subpuzzles[a][b].size == old(subpuzzles[a][b].size)
      ensures subpuzzles[a][b].possibleRows == old(subpuzzles[a][b].possibleRows)
      ensures subpuzzles[a][b].possibleColumns == old(subpuzzles[a][b].possibleColumns)
    {
      subpuzzles[a][b].puzzle := BlockAt(puzzle.puzzle, subsize, |subpuzzles|, a, b);
    }

    /** The inner loop of _update_subpuzzles: every subpuzzle of block row a gets its block. */
    method SetBand(a: nat)
      requires Valid() && a < |subpuzzles|
      modifies subpuzzles[a]
      ensures Valid()
      ensures forall x, y :: 0 <= x < |subpuzzles| && 0 <= y < |subpuzzles| ==>
        subpuzzles[x][y].size == old(subpuzzles[x][y].size) &&
        subpuzzles[x][y].possibleRows == old(subpuzzles[x][y].possibleRows) &&
        subpuzzles[x][y].possibleColumns == old(subpuzzles[x][y].possibleColumns) &&
        subpuzzles[x][y].puzzle ==
          if x == a then BlockAt(puzzle.puzzle, subsize, |subpuzzles|, x, y) else old(subpuzzles[x][y].puzzle)
    {
      var k, m := subsize, |subpuzzles|;
      for b := 0 to m
        invariant Valid()
        invariant forall x, y :: 0 <= x < m && 0 <= y < m ==>
          subpuzzles[x][y].size == old(subpuzzles[x][y].size) &&
          subpuzzles[x][y].possibleRows == old(subpuzzles[x][y].possibleRows) &&
          subpuzzles[x][y].possibleColumns == old(subpuzzles[x][y].possibleColumns) &&
          subpuzzles[x][y].puzzle ==
            if x == a && y < b then BlockAt(puzzle.puzzle, k, m, x, y) else old(subpuzzles[x][y].puzzle)
      {
        DisjointApart(subpuzzles, a, b);
        SetBlock(a, b);
      }
    }

    /**
     * _update_subpuzzles: overwrite every subpuzzle's grid with its block of
     * the whole puzzle; the whole puzzle and the subpuzzles' pools are left
     * alone.
     */
    method UpdateSubpuzzles()
      requires Valid()
      modifies Repr - {this, puzzle}
      ensures Valid() && Synced()
      ensures forall a, b :: 0 <= a < |subpuzzles| && 0 <= b < |subpuzzles| ==>
        subpuzzles[a][b].size == old(subpuzzles[a][b].size) &&
        subpuzzles[a][b].possibleRows == old(subpuzzles[a][b].possibleRows) &&
        subpuzzles[a][b].possibleColumns == old(subpuzzles[a][b].possibleColumns)
      ensures old(Synced()) ==> forall a, b :: 0 <= a < |subpuzzles| && 0 <= b < |subpuzzles| ==>
        subpuzzles[a][b].puzzle == old(subpuzzles[a][b].puzzle)
      ensures States() == Recut(puzzle.puzzle, old(States()), subsize, |subpuzzles|)
    {
      ghost var s0 := States();
      var k, m := subsize, |subpuzzles|;
      for a := 0 to m
        invariant Valid()
        invariant forall x, y :: 0 <= x < m && 0 <= y < m ==>
          subpuzzles[x][y].size == old(subpuzzles[x][y].size) &&
          subpuzzles[x][y].possibleRows == old(subpuzzles[x][y].possibleRows) &&
          subpuzzles[x][y].possibleColumns == old(subpuzzles[x][y].possibleColumns) &&
          subpuzzles[x][y].puzzle == if x < a then BlockAt(puzzle.puzzle, k, m, x, y) else old(subpuzzles[x][y].puzzle)
      {
        SetBand(a);
      }
      SameStates(States(), Recut(puzzle.puzzle, s0, k, m), m);
    }

    /**
     * The inner loop of solve's first step: _loop on every subpuzzle of
     * block row a, left to right, stopping at the first that fails. The
     * subpuzzles before position fb end as Propagation.Sweep leaves them,
     * the one at fb is where the failure happened, and the rest are untouched.
     */
    method LoopBand(a: nat) returns (o: Outcome, ghost fb: nat)
      requires Valid() && a < |subpuzzles|
      modifies subpuzzles[a]
      ensures Valid()
      ensures o.Pass? <==> fb == |subpuzzles|
      ensures fb <= |subpuzzles|
      ensures forall x, y :: 0 <= x < |subpuzzles| && 0 <= y < |subpuzzles| ==>
        if x == a && y < fb then Run(subpuzzles[x][y].Snapshot(), Pass) == Sweep(old(subpuzzles[x][y].Snapshot()), subsize)
        else if x == a && y == fb then Run(subpuzzles[x][y].Snapshot(), o) == Sweep(old(subpuzzles[x][y].Snapshot()), subsize)
        else subpuzzles[x][y].Snapshot() == old(subpuzzles[x][y].Snapshot())
    {
      var m := |subpuzzles|;
      for b := 0 to m
        invariant Valid()
        invariant forall x, y :: 0 <= x < m && 0 <= y < m ==>
          if x == a && y < b then Run(subpuzzles[x][y].Snapshot(), Pass) == Sweep(old(subpuzzles[x][y].Snapshot()), subsize)
          else subpuzzles[x][y].Snapshot() == old(subpuzzles[x][y].Snapshot())
      {
        DisjointApart(subpuzzles, a, b);
        o := subpuzzles[a][b].Loop();
        if o.Fail? {
          fb := b;
          return;
        }
      }
      o, fb := Pass, m;
    }

    /**
     * The first step of a round of solve: _loop on every subpuzzle, row by
     * row, stopping at the first that fails. The subpuzzles before position
     * (fa, fb) end as Propagation.Sweep leaves them, the one at (fa, fb) is
     * where the failure happened, and the rest are untouched; the whole
     * puzzle is not touched at all.
     */
    method LoopSubpuzzles() returns (o: Outcome, ghost fa: nat, ghost fb: nat)
      requires Valid()
      modifies Repr - {this, puzzle}
      ensures Valid()
      ensures o.Pass? <==> fa == |subpuzzles|
      ensures fa <= |subpuzzles| && fb <= |subpuzzles| && (o.Fail? ==> fb < |subpuzzles|)
      ensures forall x, y :: 0 <= x < |subpuzzles| && 0 <= y < |subpuzzles| ==>
        if Before(x, y, fa, fb) then Run(subpuzzles[x][y].Snapshot(), Pass) == Sweep(old(subpuzzles[x][y].Snapshot()), subsize)
        else if x == fa && y == fb then Run(subpuzzles[x][y].Snapshot(), o) == Sweep(old(subpuzzles[x][y].Snapshot()), subsize)
        else subpuzzles[x][y].Snapshot() == old(subpuzzles[x][y].Snapshot())
    {
      var m := |subpuzzles|;
      for a := 0 to m
        invariant Valid()
        invariant forall x, y :: 0 <= x < m && 0 <= y < m ==>
          if x < a then Run(subpuzzles[x][y].Snapshot(), Pass) == Sweep(old(subpuzzles[x][y].Snapshot()), subsize)
          else subpuzzles[x][y].Snapshot() == old(subpuzzles[x][y].Snapshot())
      {
        o, fb := LoopBand(a);
        if o.Fail? {
          fa := a;
          return;
        }
      }
      o, fa, fb := Pass, m, 0;
    }

    /**
     * The first half of a round of solve: sweep every subpuzzle as
     * LoopSubpuzzles does and, when none failed, merge them into the whole
     * puzzle. Starting from subpuzzles that hold their blocks, the whole
     * puzzle only gains digits.
     */
    method SweepSubpuzzles() returns (o: Outcome, ghost fa: nat, ghost fb: nat)
      requires Valid()
      modifies Repr - {this}
      ensures Valid()
      ensures o.Pass? <==> fa == |subpuzzles|
      ensures fa <= |subpuzzles| && fb <= |subpuzzles| && (o.Fail? ==> fb < |subpuzzles|)
      ensures forall x, y :: 0 <= x < |subpuzzles| && 0 <= y < |subpuzzles| ==>
        if Before(x, y, fa, fb) then Run(subpuzzles[x][y].Snapshot(), Pass) == Sweep(old(subpuzzles[x][y].Snapshot()), subsize)
        else if x == fa && y == fb then Run(subpuzzles[x][y].Snapshot(), o) == Sweep(old(subpuzzles[x][y].Snapshot()), subsize)
        else subpuzzles[x][y].Snapshot() == old(subpuzzles[x][y].Snapshot())
      ensures o.Fail? ==> puzzle.Snapshot() == old(puzzle.Snapshot())
      ensures o.Pass? ==> Synced()
      ensures puzzle.possibleRows == old(puzzle.possibleRows) && puzzle.possibleColumns == old(puzzle.possibleColumns)
      ensures o.Pass? && old(Synced()) ==> Refines(old(puzzle.puzzle), puzzle.puzzle)
    {
      var k, m := subsize, |subpuzzles|;
      ghost var synced := Synced();
      ghost var start := puzzle.puzzle;
      label Split:
      o, fa, fb := LoopSubpuzzles();
      if o.Fail? {
        return;
      }
      label Swept:
      UpdatePuzzle();
      if synced {
        forall a, b | 0 <= a < m && 0 <= b < m
          ensures Refines(BlockAt(start, k, m, a, b), BlockAt(puzzle.puzzle, k, m, a, b))
        {
          var sub := subpuzzles[a][b];
          assert old@Split(sub.puzzle) == BlockAt(start, k, m, a, b);
          assert Refines(old@Split(sub.puzzle), old@Swept(sub.puzzle));
          assert sub.puzzle == old@Swept(sub.puzzle) == BlockAt(puzzle.puzzle, k, m, a, b);
        }
        BlocksRefine(start, puzzle.puzzle, k, m);
      }
    }

    /**
     * The second half of a round of solve: _loop on the whole puzzle, whose
     * new state is Propagation.Sweep's, then, when it did not fail, cut it
     * into blocks again.
     */
    method SweepWhole() returns (o: Outcome)
      requires Valid()
      modifies Repr - {this}
      ensures Valid()
      ensures Run(puzzle.Snapshot(), o) == Sweep(old(puzzle.Snapshot()), puzzle.size)
      ensures o.Pass? ==> Synced()
      ensures o.Fail? ==> States() == old(States())
      ensures o.Pass? ==> States() == Recut(puzzle.puzzle, old(States()), subsize, |subpuzzles|)
    {
      ghost var s0 := States();
      o := puzzle.Loop();
      if o.Fail? {
        return;
      }
      UpdateSubpuzzles();
    }

    /**
     * SweepSubpuzzles in terms of states: the subpuzzles' new states and the
     * outcome are SweepBands', and when that passed the whole puzzle holds
     * their merge and keeps its pools; otherwise it is left alone.
     */
    method MergeSubpuzzles() returns (o: Outcome)
      requires Valid()
      modifies Repr - {this}
      ensures Valid()
      ensures (States(), o) == SweepBands(old(States()), subsize)
      ensures o.Fail? ==> puzzle.Snapshot() == old(puzzle.Snapshot())
      ensures o.Pass? ==>
        puzzle.Snapshot() == State(Join(Grids(States(), subsize, |subpuzzles|), subsize, |subpuzzles|), old(puzzle.possibleRows), old(puzzle.possibleColumns))
    {
      var k, m := subsize, |subpuzzles|;
      ghost var s0 := States();
      ghost var fa, fb;
      o, fa, fb := SweepSubpuzzles();
      assert SweepBands(s0, k) == (States(), o) by {
        InOrderIsSweepBands(s0, States(), k, m, o, fa, fb);
      }
      if o.Pass? {
        SyncedIsJoin();
      }
    }

    /** Subpuzzles that hold their blocks join into the whole puzzle's grid. */
    lemma SyncedIsJoin()
      requires Valid() && Synced()
      ensures puzzle.puzzle == Join(Grids(States(), subsize, |subpuzzles|), subsize, |subpuzzles|)
    {
      JoinOfBlocks(puzzle.puzzle, Grids(States(), subsize, |subpuzzles|), subsize, |subpuzzles|);
    }

    /**
     * The rest of a round once the subpuzzles, swept from s0, passed and
     * were merged into the whole puzzle, whose state was w0 before: the
     * round ends as SpecialRound says.
     */
    method FinishRound(ghost w0: State, ghost s0: seq<seq<State>>) returns (o: Outcome)
      requires Valid() && Wf(w0, |subpuzzles| * subsize) && Tiled(s0, subsize, |subpuzzles|)
      requires SweepBands(s0, subsize) == (States(), Pass)
      requires puzzle.Snapshot() == State(Join(Grids(States(), subsize, |subpuzzles|), subsize, |subpuzzles|), w0.rows, w0.columns)
      modifies Repr - {this}
      ensures Valid()
      ensures (puzzle.Snapshot(), States(), o) == SpecialRound(w0, s0, subsize, |subpuzzles|)
    {
      ghost var s1 := States();
      o := SweepWhole();
      SpecialRoundMerged(w0, s0, subsize, |subpuzzles|, s1, puzzle.Snapshot(), o);
    }

    /**
     * One pass of solve's loop: SweepSubpuzzles and, when it passed,
     * SweepWhole. The whole puzzle's new state, the subpuzzles' new states
     * and the outcome are SpecialRound's.
     */
    method Round() returns (o: Outcome)
      requires Valid()
      modifies Repr - {this}
      ensures Valid()
      ensures (puzzle.Snapshot(), States(), o) ==
        SpecialRound(old(puzzle.Snapshot()), old(States()), subsize, |subpuzzles|)
    {
      var k, m := subsize, |subpuzzles|;
      ghost var w0, s0 := puzzle.Snapshot(), States();
      o := MergeSubpuzzles();
      if o.Fail? {
        SpecialRoundStopped(w0, s0, k, m, States(), o);
        return;
      }
      o := FinishRound(w0, s0);
    }

    /**
     * solve: while an unknown cell is left, run a round (Round). At most
     * fuel rounds run; Unfinished reports that the source would still be
     * looping. The result is SpecialRounds of the starting states.
     */
    method Solve(fuel: nat) returns (s: Status)
      requires Valid()
      modifies Repr - {this}
      ensures Valid()
      ensures (puzzle.Snapshot(), States(), s) ==
        SpecialRounds(old(puzzle.Snapshot()), old(States()), subsize, |subpuzzles|, fuel)
      ensures s == Solved ==> 'X' !in puzzle.puzzle
      ensures s == Unfinished ==> 'X' in puzzle.puzzle
      ensures old(Synced()) ==> Refines(old(puzzle.puzzle), puzzle.puzzle)
    {
      var k, m := subsize, |subpuzzles|;
      ghost var w0, s0 := puzzle.Snapshot(), States();
      assert Synced() ==> Refines(w0.grid, SpecialRounds(w0, s0, k, m, fuel).0.grid) by {
        if Synced() {
          assert SyncedStates(w0.grid, s0, k, m);
          SpecialRoundsRefine(w0, s0, k, m, fuel);
        }
      }
      var left := fuel;
      while 'X' in puzzle.puzzle
        invariant Valid()
        invariant SpecialRounds(puzzle.Snapshot(), States(), k, m, left) == SpecialRounds(w0, s0, k, m, fuel)
        decreases left
      {
        if left == 0 {
          return Unfinished;
        }
        ghost var w1, s1 := puzzle.Snapshot(), States();
        SpecialRoundsStep(w1, s1, k, m, left);
        var o := Round();
        if o.Fail? {
          return Failed(o.error);
        }
        left := Spent(left);
      }
      return Solved;
    }
  }
}
