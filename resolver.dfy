/**
 * The line resolver: one row or column, reconciled with its axis's pool of
 * candidate lines. ResolveLine is the value-level meaning of _check_row and
 * _check_column; the methods of Puzzle.Binairo are proved against it.
 */
module Resolver {
  import opened Lines
  import opened Grid
  import opened Errors

  /** The character str() gives for a digit. */
  function DigitChar(b: Bit): char
  {
    if b == 0 then '0' else '1'
  }

  /** A candidate written out as '0'/'1' characters. */
  function Spell(c: Line): (s: string)
    ensures |s| == |c|
    ensures forall j :: 0 <= j < |c| ==> (s[j] == '0' <==> c[j] == 0) && (s[j] == '1' <==> c[j] == 1)
  {
    seq(|c|, j requires 0 <= j < |c| => DigitChar(c[j]))
  }

  predicate IsDigit(ch: char)
  {
    '0' <= ch <= '9'
  }

  /** Python's int() reads every character once 'X' is replaced by '2'. */
  predicate Parses(line: string)
  {
    forall j :: 0 <= j < |line| ==> IsDigit(line[j]) || line[j] == 'X'
  }

  /** Only the three symbols of the puzzle format occur. */
  predicate WellFormed(line: string)
  {
    forall j :: 0 <= j < |line| ==> line[j] == '0' || line[j] == '1' || line[j] == 'X'
  }

  /** The integers int() reads from a line of digits. */
  function DigitValues(line: string): (v: seq<int>)
    requires forall j :: 0 <= j < |line| ==> IsDigit(line[j])
    ensures |v| == |line|
    ensures forall c: Line :: c == v <==> (|c| == |line| && Agrees(c, line) &&
      forall j :: 0 <= j < |line| ==> line[j] == '0' || line[j] == '1')
  {
    var v := seq(|line|, j requires 0 <= j < |line| => line[j] as int - '0' as int);
    forall c: Line
      ensures c == v <==> (|c| == |line| && Agrees(c, line) &&
        forall j :: 0 <= j < |line| ==> line[j] == '0' || line[j] == '1')
    {
      if |c| == |line| && Agrees(c, line) && (forall j :: 0 <= j < |line| ==> line[j] == '0' || line[j] == '1') {
        assert forall j :: 0 <= j < |line| ==> c[j] == v[j];
      }
      if c == v {
        forall j | 0 <= j < |line|
          ensures line[j] == '0' || line[j] == '1'
          ensures (line[j] == '0' ==> c[j] == 0) && (line[j] == '1' ==> c[j] == 1)
        {
          assert c[j] == line[j] as int - '0' as int;
        }
      }
    }
    v
  }

  /** Every candidate of the pool has length n. */
  predicate Fits(pool: seq<Line>, n: nat)
  {
    forall c :: c in pool ==> |c| == n
  }

  /** Candidate c is consistent with every known 0 and 1 of the line. */
  predicate Agrees(c: Line, line: string)
    requires |c| == |line|
  {
    forall j :: 0 <= j < |line| ==> (line[j] == '0' ==> c[j] == 0) && (line[j] == '1' ==> c[j] == 1)
  }

  predicate Distinct(pool: seq<Line>)
  {
    forall i, j :: 0 <= i < j < |pool| ==> pool[i] != pool[j]
  }

  /** A pool for a size-n grid: distinct legal lines. */
  predicate LegalPool(pool: seq<Line>, n: nat)
  {
    (forall c :: c in pool ==> IsLegal(c, n)) && Distinct(pool)
  }

  /** p is obtained from q by deleting entries, order kept. */
  predicate IsSubsequence(p: seq<Line>, q: seq<Line>)
    decreases |q|
  {
    p == [] || (q != [] && ((p[0] == q[0] && IsSubsequence(p[1..], q[1..])) || IsSubsequence(p, q[1..])))
  }

  lemma {:induction false} SubsequenceReflexive(p: seq<Line>)
    ensures IsSubsequence(p, p)
  {
    if p != [] {
      SubsequenceReflexive(p[1..]);
    }
  }

  lemma {:induction false} SubsequenceTransitive(p: seq<Line>, q: seq<Line>, r: seq<Line>)
    requires IsSubsequence(p, q) && IsSubsequence(q, r)
    ensures IsSubsequence(p, r)
    decreases |r|
  {
    if p != [] {
      if q[0] == r[0] && IsSubsequence(q[1..], r[1..]) {
        if p[0] == q[0] && IsSubsequence(p[1..], q[1..]) {
          SubsequenceTransitive(p[1..], q[1..], r[1..]);
        } else {
          SubsequenceTransitive(p, q[1..], r[1..]);
        }
      } else {
        SubsequenceTransitive(p, q, r[1..]);
      }
    }
  }

  /** Deleting entries keeps only entries of the original, and no more of them. */
  lemma {:induction false} SubsequenceMembers(p: seq<Line>, q: seq<Line>)
    requires IsSubsequence(p, q)
    ensures |p| <= |q|
    ensures forall x :: x in p ==> x in q
    decreases |q|
  {
    if p != [] {
      if p[0] == q[0] && IsSubsequence(p[1..], q[1..]) {
        SubsequenceMembers(p[1..], q[1..]);
        assert forall x :: x in p ==> x == p[0] || x in p[1..];
      } else {
        SubsequenceMembers(p, q[1..]);
      }
    }
  }

  /** Deleting entries keeps a pool of distinct legal lines one. */
  lemma {:induction false} SubsequenceLegal(p: seq<Line>, q: seq<Line>, n: nat)
    requires IsSubsequence(p, q) && LegalPool(q, n)
    ensures LegalPool(p, n)
    decreases |q|
  {
    SubsequenceMembers(p, q);
    if p != [] {
      assert Distinct(q[1..]);
      if p[0] == q[0] && IsSubsequence(p[1..], q[1..]) {
        SubsequenceLegal(p[1..], q[1..], n);
        SubsequenceMembers(p[1..], q[1..]);
        forall i, j | 0 <= i < j < |p|
          ensures p[i] != p[j]
        {
          if i == 0 {
            assert p[j] == p[1..][j - 1] && p[j] in q[1..];
            assert forall t :: 0 < t < |q| ==> q[0] != q[t];
          } else {
            assert p[i] == p[1..][i - 1] && p[j] == p[1..][j - 1];
          }
        }
      } else {
        SubsequenceLegal(p, q[1..], n);
      }
    }
  }

  /** The pool entries that agree with the line, in pool order. */
  function Matching(pool: seq<Line>, line: string): (r: seq<Line>)
    requires Fits(pool, |line|)
    ensures forall c :: c in r <==> c in pool && Agrees(c, line)
    ensures IsSubsequence(r, pool)
  {
    if pool == [] then []
    else if Agrees(pool[0], line) then [pool[0]] + Matching(pool[1..], line)
    else Matching(pool[1..], line)
  }

  /**
   * _get_solutions: the candidates consistent with a partially known line.
   * Python's int() fails on a character that is neither a digit nor 'X'.
   */
  function GetSolutions(line: string, pool: seq<Line>): (r: Result<seq<Line>>)
    requires Fits(pool, |line|)
    ensures r.Ok? <==> Parses(line)
    ensures r.Ok? ==> forall c :: c in r.value <==> c in pool && Agrees(c, line)
    ensures r.Ok? ==> IsSubsequence(r.value, pool)
  {
    if Parses(line) then Ok(Matching(pool, line)) else Err(InvalidCharacter)
  }

  /** np.delete of every pool entry equal to v. */
  function Without(pool: seq<Line>, v: seq<int>): (r: seq<Line>)
    ensures forall c :: c in r <==> c in pool && c != v
    ensures (forall c :: c in pool ==> c != v) ==> r == pool
    ensures IsSubsequence(r, pool)
  {
    if pool == [] then []
    else if pool[0] == v then assert pool[0] in pool; Without(pool[1..], v)
    else assert forall c :: c in pool[1..] ==> c in pool; [pool[0]] + Without(pool[1..], v)
  }

  /** In a pool of distinct lines, deleting a present entry deletes exactly one. */
  lemma {:induction false} WithoutPresent(pool: seq<Line>, i: nat)
    requires Distinct(pool) && i < |pool|
    ensures |Without(pool, pool[i])| == |pool| - 1
  {
    var rest := pool[1..];
    assert Distinct(rest);
    if i == 0 {
      assert forall c :: c in rest ==> c != pool[0];
    } else {
      WithoutPresent(rest, i - 1);
    }
  }

  /** Every candidate has the same digit at position j. */
  predicate Unanimous(solutions: seq<Line>, j: nat)
    requires solutions != [] && forall s :: s in solutions ==> j < |s|
  {
    forall s :: s in solutions ==> s[j] == solutions[0][j]
  }

  /** The line with every unknown position on which all candidates agree filled in. */
  function Forced(line: string, solutions: seq<Line>): (r: string)
    requires solutions != [] && Fits(solutions, |line|)
    ensures |r| == |line| && Refines(line, r)
    ensures forall j :: 0 <= j < |line| ==> (r[j] != line[j] <==> line[j] == 'X' && Unanimous(solutions, j))
    ensures forall j, s :: 0 <= j < |line| && s in solutions && r[j] != line[j] ==> r[j] == DigitChar(s[j])
  {
    seq(|line|, j requires 0 <= j < |line| =>
      if line[j] == 'X' && Unanimous(solutions, j) then DigitChar(solutions[0][j]) else line[j])
  }

  /** The positions below j that Forced fills in, ascending. */
  function ForcedPositions(line: string, solutions: seq<Line>, j: nat): (r: seq<nat>)
    requires solutions != [] && Fits(solutions, |line|) && j <= |line|
    ensures |r| <= j && forall k :: 0 <= k < |r| ==> r[k] < j
  {
    if j == 0 then []
    else
      ForcedPositions(line, solutions, j - 1) +
      (if line[j - 1] == 'X' && Unanimous(solutions, j - 1) then [j - 1] else [])
  }

  lemma {:induction false} ForcedPositionsSpec(line: string, solutions: seq<Line>, j: nat)
    requires solutions != [] && Fits(solutions, |line|) && j <= |line|
    ensures forall i :: i in ForcedPositions(line, solutions, j) <==>
      0 <= i < j && line[i] == 'X' && Unanimous(solutions, i)
    ensures forall p, q :: 0 <= p < q < |ForcedPositions(line, solutions, j)| ==>
      ForcedPositions(line, solutions, j)[p] < ForcedPositions(line, solutions, j)[q]
  {
    if j > 0 {
      ForcedPositionsSpec(line, solutions, j - 1);
      var prev := ForcedPositions(line, solutions, j - 1);
      forall p | 0 <= p < |prev|
        ensures prev[p] < j - 1
      {
        assert prev[p] in prev;
      }
    }
  }

  /** The outcome of resolving one line: the new line, the new pool and the filled positions. */
  datatype Resolution = Resolution(line: string, pool: seq<Line>, changes: seq<nat>)

  /**
   * One row or column against its axis's pool: a fully known line consumes
   * its own value; otherwise the agreeing candidates are computed, none is a
   * contradiction, one fills the line and is consumed, several fill only the
   * positions where they all agree.
   */
  function ResolveLine(line: string, pool: seq<Line>): (res: Result<Resolution>)
    requires Fits(pool, |line|)
    ensures res.Ok? ==> |res.value.line| == |line|
    ensures res.Err? ==> res.error == InvalidCharacter || res.error == NoSolutionsFound
  {
    if 'X' !in line then
      if Parses(line) then Ok(Resolution(line, Without(pool, DigitValues(line)), []))
      else Err(InvalidCharacter)
    else
      match GetSolutions(line, pool)
      case Err(e) => Err(e)
      case Ok(solutions) =>
        if |solutions| == 0 then Err(NoSolutionsFound)
        else
          var pool' := if |solutions| == 1 then Without(pool, solutions[0]) else pool;
          Ok(Resolution(Forced(line, solutions), pool', ForcedPositions(line, solutions, |line|)))
  }

  /** The two ways resolving fails, each exactly characterised. */
  lemma ResolveErrors(line: string, pool: seq<Line>)
    requires Fits(pool, |line|)
    ensures ResolveLine(line, pool) == Err(InvalidCharacter) <==> !Parses(line)
    ensures ResolveLine(line, pool) == Err(NoSolutionsFound) <==>
      Parses(line) && 'X' in line && forall c :: c in pool ==> !Agrees(c, line)
    ensures ResolveLine(line, pool).Err? ==>
      ResolveLine(line, pool) == Err(InvalidCharacter) || ResolveLine(line, pool) == Err(NoSolutionsFound)
  {
    if Parses(line) && 'X' in line {
      var solutions := GetSolutions(line, pool).value;
      if solutions != [] {
        assert solutions[0] in solutions;
      }
    }
  }

  /**
   * Resolving never alters a known cell, fills only with '0'/'1', reports
   * exactly the positions it changed in increasing order, and only deletes
   * entries from the pool.
   */
  lemma ResolveSound(line: string, pool: seq<Line>, n: nat)
    requires Fits(pool, |line|)
    requires ResolveLine(line, pool).Ok?
    ensures Refines(line, ResolveLine(line, pool).value.line)
    ensures forall j :: j in ResolveLine(line, pool).value.changes <==>
      0 <= j < |line| && ResolveLine(line, pool).value.line[j] != line[j]
    ensures forall p, q :: 0 <= p < q < |ResolveLine(line, pool).value.changes| ==>
      ResolveLine(line, pool).value.changes[p] < ResolveLine(line, pool).value.changes[q]
    ensures IsSubsequence(ResolveLine(line, pool).value.pool, pool)
    ensures LegalPool(pool, n) ==> LegalPool(ResolveLine(line, pool).value.pool, n)
  {
    var res := ResolveLine(line, pool).value;
    if 'X' !in line {
      assert res.line == line;
    } else {
      var solutions := GetSolutions(line, pool).value;
      ForcedPositionsSpec(line, solutions, |line|);
      if |solutions| != 1 {
        SubsequenceReflexive(pool);
      }
    }
    if LegalPool(pool, n) {
      SubsequenceLegal(res.pool, pool, n);
    }
  }

  /** A fully known line changes nothing and consumes its own value from the pool, if present. */
  lemma ResolveKnownLine(line: string, pool: seq<Line>)
    requires Fits(pool, |line|)
    requires 'X' !in line && Parses(line)
    ensures ResolveLine(line, pool).Ok?
    ensures ResolveLine(line, pool).value.line == line
    ensures ResolveLine(line, pool).value.changes == []
    ensures forall c :: c in ResolveLine(line, pool).value.pool <==> c in pool && c != DigitValues(line)
    ensures (forall c :: c in pool ==> c != DigitValues(line)) ==> ResolveLine(line, pool).value.pool == pool
    ensures forall i :: 0 <= i < |pool| && Distinct(pool) && pool[i] == DigitValues(line) ==>
      |ResolveLine(line, pool).value.pool| == |pool| - 1
  {
    forall i | 0 <= i < |pool| && Distinct(pool) && pool[i] == DigitValues(line)
      ensures |ResolveLine(line, pool).value.pool| == |pool| - 1
    {
      WithoutPresent(pool, i);
    }
  }

  lemma {:induction false} MatchingDistinct(pool: seq<Line>, line: string)
    requires Fits(pool, |line|) && Distinct(pool)
    ensures Distinct(Matching(pool, line))
  {
    if pool != [] {
      assert Distinct(pool[1..]);
      MatchingDistinct(pool[1..], line);
      if Agrees(pool[0], line) {
        var m := Matching(pool[1..], line);
        assert pool[0] !in pool[1..];
        assert pool[0] !in m;
        assert Matching(pool, line) == [pool[0]] + m;
      }
    }
  }

  lemma FirstTwoDiffer(s: seq<Line>)
    requires Distinct(s) && |s| > 1
    ensures s[0] != s[1] && s[0] in s && s[1] in s
  {
  }

  lemma SingletonPool(s: seq<Line>, c: Line)
    requires Distinct(s) && c in s && forall x :: x in s ==> x == c
    ensures s == [c]
  {
    if |s| > 1 {
      FirstTwoDiffer(s);
      assert false;
    }
  }

  /**
   * Exactly one agreeing candidate: every unknown becomes that candidate's
   * digit, the candidate leaves the pool, and the reported positions are the
   * former unknowns. On a line of '0', '1' and 'X' the result is the candidate.
   */
  lemma ResolveSingleCandidate(line: string, pool: seq<Line>, c: Line)
    requires Fits(pool, |line|) && Distinct(pool)
    requires Parses(line) && 'X' in line
    requires c in pool && Agrees(c, line)
    requires forall d :: d in pool && Agrees(d, line) ==> d == c
    ensures ResolveLine(line, pool).Ok?
    ensures ResolveLine(line, pool).value.pool == Without(pool, c)
    ensures c !in ResolveLine(line, pool).value.pool
    ensures |ResolveLine(line, pool).value.pool| == |pool| - 1
    ensures forall j :: 0 <= j < |line| && line[j] == 'X' ==> ResolveLine(line, pool).value.line[j] == DigitChar(c[j])
    ensures forall j :: j in ResolveLine(line, pool).value.changes <==> 0 <= j < |line| && line[j] == 'X'
    ensures WellFormed(line) ==> ResolveLine(line, pool).value.line == Spell(c)
  {
    var solutions := Matching(pool, line);
    MatchingDistinct(pool, line);
    assert c in solutions;
    SingletonPool(solutions, c);
    ForcedPositionsSpec(line, solutions, |line|);
    var i :| 0 <= i < |pool| && pool[i] == c;
    WithoutPresent(pool, i);
    var res := Resolution(Forced(line, solutions), Without(pool, c), ForcedPositions(line, solutions, |line|));
    assert ResolveLine(line, pool) == Ok(res);
    ForcedBySingle(line, c);
  }

  /**
   * A single candidate is unanimous everywhere, so forcing with it writes
   * its digit at every X, reports exactly the X positions, and turns a
   * well-formed line into the candidate.
   */
  lemma ForcedBySingle(line: string, c: Line)
    requires Fits([c], |line|) && Agrees(c, line)
    ensures forall j :: 0 <= j < |line| && line[j] == 'X' ==> Forced(line, [c])[j] == DigitChar(c[j])
    ensures forall j :: j in ForcedPositions(line, [c], |line|) <==> 0 <= j < |line| && line[j] == 'X'
    ensures WellFormed(line) ==> Forced(line, [c]) == Spell(c)
  {
    var r := Forced(line, [c]);
    ForcedPositionsSpec(line, [c], |line|);
    forall j | 0 <= j < |line| && line[j] == 'X'
      ensures r[j] == DigitChar(c[j])
    {
      assert Unanimous([c], j);
    }
    if WellFormed(line) {
      forall j | 0 <= j < |line|
        ensures r[j] == Spell(c)[j]
      {
      }
    }
  }

  lemma {:induction false} MatchingCongruence(pool: seq<Line>, l1: string, l2: string)
    requires |l1| == |l2| && Fits(pool, |l1|)
    requires forall c :: c in pool ==> (Agrees(c, l1) <==> Agrees(c, l2))
    ensures Matching(pool, l1) == Matching(pool, l2)
  {
    if pool != [] {
      MatchingCongruence(pool[1..], l1, l2);
    }
  }

  /**
   * Filling the forced positions loses no agreeing candidate and admits no
   * new one: the new line has exactly the agreeing candidates of the old.
   */
  lemma ResolveLossless(line: string, pool: seq<Line>)
    requires Fits(pool, |line|)
    requires ResolveLine(line, pool).Ok?
    ensures |ResolveLine(line, pool).value.line| == |line|
    ensures Matching(pool, ResolveLine(line, pool).value.line) == Matching(pool, line)
  {
    if 'X' in line {
      var solutions := GetSolutions(line, pool).value;
      var filled := Forced(line, solutions);
      forall c | c in pool
        ensures Agrees(c, filled) <==> Agrees(c, line)
      {
        if Agrees(c, line) {
          assert c in solutions;
          forall j | 0 <= j < |line|
            ensures (filled[j] == '0' ==> c[j] == 0) && (filled[j] == '1' ==> c[j] == 1)
          {
          }
        }
        if Agrees(c, filled) {
          forall j | 0 <= j < |line|
            ensures (line[j] == '0' ==> c[j] == 0) && (line[j] == '1' ==> c[j] == 1)
          {
            assert line[j] != 'X' ==> filled[j] == line[j];
          }
        }
      }
      MatchingCongruence(pool, filled, line);
    }
  }

  /**
   * Several different agreeing candidates: the pool is untouched and exactly
   * the unknown positions on which every agreeing candidate has the same
   * digit are filled in.
   */
  lemma ResolveSeveralCandidates(line: string, pool: seq<Line>, c1: Line, c2: Line)
    requires Fits(pool, |line|)
    requires Parses(line) && 'X' in line
    requires c1 in pool && Agrees(c1, line) && c2 in pool && Agrees(c2, line) && c1 != c2
    ensures ResolveLine(line, pool).Ok?
    ensures ResolveLine(line, pool).value.pool == pool
    ensures forall j :: 0 <= j < |line| ==>
      (ResolveLine(line, pool).value.line[j] != line[j] <==>
        line[j] == 'X' && forall d :: d in pool && Agrees(d, line) ==> d[j] == c1[j])
    ensures forall j :: 0 <= j < |line| && ResolveLine(line, pool).value.line[j] != line[j] ==>
      ResolveLine(line, pool).value.line[j] == DigitChar(c1[j])
  {
    var solutions := Matching(pool, line);
    assert c1 in solutions && c2 in solutions;
    var res := Resolution(Forced(line, solutions), pool, ForcedPositions(line, solutions, |line|));
    assert ResolveLine(line, pool) == Ok(res);
    assert solutions[0] in solutions;
    forall j | 0 <= j < |line|
      ensures res.line[j] != line[j] <==> line[j] == 'X' && forall d :: d in pool && Agrees(d, line) ==> d[j] == c1[j]
      ensures res.line[j] != line[j] ==> res.line[j] == DigitChar(c1[j])
    {
      assert Unanimous(solutions, j) <==> forall d :: d in solutions ==> d[j] == c1[j];
    }
  }
}
