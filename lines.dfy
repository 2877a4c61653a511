/** The candidate generator: every legal filling of one row or column. */
module Lines {

  /** One binary digit of a candidate line. */
  type Bit = b: int | 0 <= b <= 1

  /** A candidate line: a sequence of binary digits. */
  type Line = seq<Bit>

  function Pow2(n: nat): (r: nat)
    ensures r >= 1
  {
    if n == 0 then 1 else 2 * Pow2(n - 1)
  }

  /** The w low-order binary digits of i, most significant first. */
  function Bits(i: nat, w: nat): (r: Line)
    ensures |r| == w
  {
    if w == 0 then [] else Bits(i / 2, w - 1) + [i % 2]
  }

  /** The number a line denotes when read as a binary numeral. */
  function Value(l: Line): (v: nat)
    ensures v < Pow2(|l|)
  {
    if l == [] then 0 else 2 * Value(l[..|l| - 1]) + l[|l| - 1]
  }

  /**
   * Python's zero-padded binary format f"{i:0{w}b}", for i < 2^w. With a
   * positive width this is exactly w digits; with width 0 Python still
   * prints the single digit "0".
   */
  function Format(i: nat, w: nat): (r: Line)
    requires i < Pow2(w)
    ensures |r| == if w == 0 then 1 else w
    ensures Value(r) == i
  {
    if w == 0 then [0]
    else
      ValueOfBits(i, w);
      Bits(i, w)
  }

  /** Three consecutive copies of d somewhere in l ("000" or "111" as a substring). */
  predicate HasRun(l: Line, d: Bit)
  {
    exists j :: 0 <= j && j + 2 < |l| && l[j] == d && l[j + 1] == d && l[j + 2] == d
  }

  /** The number of zeros in l. */
  function Zeros(l: Line): nat
  {
    if l == [] then 0 else (if l[0] == 0 then 1 else 0) + Zeros(l[1..])
  }

  /** The test the generator applies to each formatted number. */
  predicate Qualifies(l: Line, size: nat)
  {
    !HasRun(l, 0) && !HasRun(l, 1) && Zeros(l) == size / 2
  }

  /** A legal line for a size-n grid: n digits, no triple run, n/2 zeros. */
  predicate IsLegal(l: Line, n: nat)
  {
    |l| == n && Qualifies(l, n)
  }

  lemma {:induction false} ValueOfBits(i: nat, w: nat)
    requires i < Pow2(w)
    ensures Value(Bits(i, w)) == i
  {
    if w > 0 {
      ValueOfBits(i / 2, w - 1);
      var b := Bits(i, w);
      assert b[..w - 1] == Bits(i / 2, w - 1);
    }
  }

  lemma {:induction false} BitsOfValue(l: Line)
    ensures Bits(Value(l), |l|) == l
  {
    if l != [] {
      var init := l[..|l| - 1];
      BitsOfValue(init);
      var v := Value(l);
      assert v / 2 == Value(init) && v % 2 == l[|l| - 1];
      assert l == init + [l[|l| - 1]];
    }
  }

  /**
   * Lists every legal line of the given length, in ascending binary order:
   * the numbers 0 .. 2^size - 1 are formatted and those that qualify are kept.
   */
  method DeterminePossibleLines(size: nat) returns (lines: seq<Line>)
    ensures forall l :: l in lines <==> 0 < size && IsLegal(l, size)
    ensures forall p, q :: 0 <= p < q < |lines| ==> Value(lines[p]) < Value(lines[q])
  {
    lines := [];
    for i := 0 to Pow2(size)
      invariant forall l :: l in lines ==> 0 < size && IsLegal(l, size) && Value(l) < i
      invariant forall l :: 0 < size && IsLegal(l, size) && Value(l) < i ==> l in lines
      invariant forall p, q :: 0 <= p < q < |lines| ==> Value(lines[p]) < Value(lines[q])
    {
      var solution := Format(i, size);
      if size == 0 {
        assert Zeros(solution) == 1;
        continue;
      }
      ValueOfBits(i, size);
      ghost var before := lines;
      if Qualifies(solution, size) {
        AppendAscending(lines, solution);
        lines := lines + [solution];
      }
      forall l | IsLegal(l, size) && Value(l) < i + 1
        ensures l in lines
      {
        if Value(l) == i {
          BitsOfValue(l);
        } else {
          assert l in before;
        }
      }
    }
  }

  lemma AppendAscending(lines: seq<Line>, l: Line)
    requires forall p, q :: 0 <= p < q < |lines| ==> Value(lines[p]) < Value(lines[q])
    requires forall m :: m in lines ==> Value(m) < Value(l)
    ensures forall p, q :: 0 <= p < q < |lines + [l]| ==> Value((lines + [l])[p]) < Value((lines + [l])[q])
  {
    forall p, q | 0 <= p < q < |lines + [l]|
      ensures Value((lines + [l])[p]) < Value((lines + [l])[q])
    {
      if q == |lines| {
        assert lines[p] in lines;
      }
    }
  }
}
