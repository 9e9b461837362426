/** The legend section partitioner of src/legend.js: it spreads an ordered list of
    legend layers over a number of display sections so that the tallest section is
    as short as possible, by trying every way of placing the section breaks. */
module Legend {
  import opened Wrappers

  /** Above this many layers the exhaustive search is skipped. */
  const TooManyLayers: nat := 12

  // ---------------------------------------------------------------------------
  // Boolean sequences
  // ---------------------------------------------------------------------------

  /** Number of `true` entries of s. */
  function CountTrue(s: seq<bool>): nat
  {
    if s == [] then 0 else CountTrue(s[..|s| - 1]) + (if s[|s| - 1] then 1 else 0)
  }

  lemma CountTrueAppend(s: seq<bool>, b: bool)
    ensures CountTrue(s + [b]) == CountTrue(s) + (if b then 1 else 0)
  {
    assert (s + [b])[..|s|] == s;
  }

  lemma {:induction false} CountTruePrepend(b: bool, s: seq<bool>)
    ensures CountTrue([b] + s) == CountTrue(s) + (if b then 1 else 0)
  {
    if s != [] {
      assert ([b] + s)[..|s|] == [b] + s[..|s| - 1];
      CountTruePrepend(b, s[..|s| - 1]);
    }
  }

  lemma {:induction false} CountTrueAtMostLength(s: seq<bool>)
    ensures CountTrue(s) <= |s|
  {
    if s != [] {
      CountTrueAtMostLength(s[..|s| - 1]);
    }
  }

  lemma {:induction false} CountTruePrefix(s: seq<bool>, i: nat)
    requires i <= |s|
    ensures CountTrue(s[..i]) <= CountTrue(s)
  {
    if i == |s| {
      assert s[..i] == s;
    } else {
      assert s[..|s| - 1][..i] == s[..i];
      CountTruePrefix(s[..|s| - 1], i);
    }
  }

  /** a and b agree after position k, and at k a holds `true` where b holds
      `false`. */
  predicate DiffersLastAt(a: seq<bool>, b: seq<bool>, k: nat)
  {
    |a| == |b| && k < |a| && a[k] && !b[k] && a[k + 1..] == b[k + 1..]
  }

  /** a comes before b in the enumeration order of allComb: at the last position
      where the two differ, a holds `true`. */
  predicate Before(a: seq<bool>, b: seq<bool>)
  {
    exists k :: 0 <= k < |a| && DiffersLastAt(a, b, k)
  }

  lemma BeforeIrreflexive(a: seq<bool>)
    ensures !Before(a, a)
  {
  }

  lemma BeforeAppendSame(a: seq<bool>, b: seq<bool>, x: bool)
    requires Before(a, b)
    ensures Before(a + [x], b + [x])
  {
    var k :| 0 <= k < |a| && DiffersLastAt(a, b, k);
    assert (a + [x])[k + 1..] == a[k + 1..] + [x];
    assert (b + [x])[k + 1..] == b[k + 1..] + [x];
    assert DiffersLastAt(a + [x], b + [x], k);
  }

  lemma BeforeLast(a: seq<bool>, b: seq<bool>)
    requires |a| == |b|
    ensures Before(a + [true], b + [false])
  {
    assert DiffersLastAt(a + [true], b + [false], |a|);
  }

  // ---------------------------------------------------------------------------
  // allComb: the enumeration of split candidates
  // ---------------------------------------------------------------------------

  /** The binomial coefficient, by Pascal's rule. */
  function Binom(m: nat, n: nat): nat
  {
    if n == 0 then 1 else if m == 0 then 0 else Binom(m - 1, n - 1) + Binom(m - 1, n)
  }

  function Fact(n: nat): nat
  {
    if n == 0 then 1 else n * Fact(n - 1)
  }

  lemma {:induction false} BinomAboveIsZero(m: nat, n: nat)
    requires n > m
    ensures Binom(m, n) == 0
  {
    if m > 0 {
      BinomAboveIsZero(m - 1, n - 1);
      BinomAboveIsZero(m - 1, n);
    }
  }

  lemma {:induction false} BinomPositive(m: nat, n: nat)
    requires n <= m
    ensures Binom(m, n) > 0
  {
    if n > 0 {
      BinomPositive(m - 1, n - 1);
    }
  }

  /** Binom is the factorial formula m! / (n! (m-n)!). */
  lemma {:induction false} BinomFactorial(m: nat, n: nat)
    requires n <= m
    ensures Binom(m, n) * (Fact(n) * Fact(m - n)) == Fact(m)
  {
    if n > 0 {
      var b1, b2 := Binom(m - 1, n - 1), Binom(m - 1, n);
      var fn1, fm1 := Fact(n - 1), Fact(m - 1);
      BinomFactorial(m - 1, n - 1);
      // b1 * (fn1 * Fact(m - n)) == fm1
      var left := b1 * (Fact(n) * Fact(m - n));
      MulShift(b1, n, fn1, Fact(m - n));
      assert left == n * fm1;
      if n < m {
        BinomFactorial(m - 1, n);
        // b2 * (Fact(n) * Fact(m - 1 - n)) == fm1
        var right := b2 * (Fact(n) * Fact(m - n));
        assert Fact(m - n) == (m - n) * Fact(m - n - 1);
        MulShift2(b2, Fact(n), m - n, Fact(m - n - 1));
        assert right == (m - n) * fm1;
        Distribute(b1, b2, Fact(n) * Fact(m - n));
        Combine(n, m - n, fm1);
      } else {
        BinomAboveIsZero(m - 1, n);
      }
    }
  }

  lemma MulShift(b: int, n: int, f: int, g: int)
    ensures b * ((n * f) * g) == n * (b * (f * g))
  {
  }

  lemma MulShift2(b: int, f: int, k: int, g: int)
    ensures b * (f * (k * g)) == k * (b * (f * g))
  {
  }

  lemma Distribute(x: int, y: int, z: int)
    ensures (x + y) * z == x * z + y * z
  {
  }

  lemma Combine(a: int, b: int, f: int)
    ensures a * f + b * f == (a + b) * f
  {
  }

  /** How many entries of row m, column n end in `true`: those built from
      C[m-1][n-1]. */
  function TrueCount(m: nat, n: nat): nat
    requires m > 0
  {
    if n > 0 then Binom(m - 1, n - 1) else 0
  }

  /** Entry i of C[m][n]: the first TrueCount(m, n) entries extend the entries of
      C[m-1][n-1] with `true`, the rest extend those of C[m-1][n] with `false`. */
  function CombAt(m: nat, n: nat, i: nat): seq<bool>
    requires i < Binom(m, n)
  {
    if m == 0 then []
    else if i < TrueCount(m, n) then CombAt(m - 1, n - 1, i) + [true]
    else CombAt(m - 1, n, i - TrueCount(m, n)) + [false]
  }

  /** C[m][n], the list allComb(m, n) returns: Binom(m, n) entries. */
  function Comb(m: nat, n: nat): (r: seq<seq<bool>>)
    ensures |r| == Binom(m, n)
  {
    seq(Binom(m, n), i requires 0 <= i < Binom(m, n) => CombAt(m, n, i))
  }

  /** Each sequence of xs with b appended, in the same order. */
  function AppendEach(xs: seq<seq<bool>>, b: bool): (r: seq<seq<bool>>)
    ensures |r| == |xs|
    ensures forall i :: 0 <= i < |xs| ==> r[i] == xs[i] + [b]
  {
    seq(|xs|, i requires 0 <= i < |xs| => xs[i] + [b])
  }

  /** The recurrence the table is filled by: C[0][0] is the one empty sequence,
      and C[m][n] lists the entries of C[m-1][n-1] with `true` appended (when
      n > 0) followed by those of C[m-1][n] with `false` appended (when m > n). */
  lemma CombRecurrence(m: nat, n: nat)
    ensures m == 0 ==> Comb(m, n) == if n == 0 then [[]] else []
    ensures m > 0 ==> Comb(m, n) == (if n > 0 then AppendEach(Comb(m - 1, n - 1), true) else []) +
                                    (if m > n then AppendEach(Comb(m - 1, n), false) else [])
  {
    if m == 0 {
      if n == 0 {
        assert Comb(m, n)[0] == [];
      }
    } else {
      var a := if n > 0 then AppendEach(Comb(m - 1, n - 1), true) else [];
      var b := if m > n then AppendEach(Comb(m - 1, n), false) else [];
      if m <= n {
        BinomAboveIsZero(m - 1, n);
      }
      assert |Comb(m, n)| == |a + b|;
      forall i | 0 <= i < |a + b|
        ensures Comb(m, n)[i] == (a + b)[i]
      {
      }
    }
  }

  /** An entry of the table that allComb(maxTrue + maxFalse, maxTrue) fills in:
      the others are skipped because they can never contribute to the answer. */
  predicate Kept(m: int, n: int, maxTrue: int, maxFalse: int)
  {
    !(n > maxTrue || m - n > maxFalse)
  }

  /** allComb(M, N): fills the table C row by row, skipping the entries that
      cannot contribute to C[M][N], and returns C[M][N]. */
  method AllComb(M: nat, N: nat) returns (r: seq<seq<bool>>)
    requires N <= M
    ensures r == Comb(M, N)
  {
    var maxTrue := N;
    var maxFalse := M - N;
    var C := new seq<seq<bool>>[M + 1, M + 1];
    C[0, 0] := [[]];
    CombRecurrence(0, 0);
    for m := 1 to M + 1
      invariant forall i, j :: 0 <= j <= i < m && Kept(i, j, maxTrue, maxFalse) ==> C[i, j] == Comb(i, j)
    {
      for n := 0 to m + 1
        invariant forall i, j :: 0 <= j <= i < m && Kept(i, j, maxTrue, maxFalse) ==> C[i, j] == Comb(i, j)
        invariant forall j :: 0 <= j < n && Kept(m, j, maxTrue, maxFalse) ==> C[m, j] == Comb(m, j)
      {
        if n > maxTrue || m - n > maxFalse {
          continue;
        }
        var a := if n > 0 then AppendEach(C[m - 1, n - 1], true) else [];
        var b := if m > n then AppendEach(C[m - 1, n], false) else [];
        CombRecurrence(m, n);
        C[m, n] := a + b;
      }
    }
    r := C[M, N];
  }

  lemma {:induction false} CombAtLength(m: nat, n: nat, i: nat)
    requires i < Binom(m, n)
    ensures |CombAt(m, n, i)| == m
  {
    if m > 0 {
      var t := TrueCount(m, n);
      if i < t {
        CombAtLength(m - 1, n - 1, i);
      } else {
        CombAtLength(m - 1, n, i - t);
      }
    }
  }

  lemma {:induction false} CombAtCount(m: nat, n: nat, i: nat)
    requires i < Binom(m, n)
    ensures CountTrue(CombAt(m, n, i)) == n
  {
    if m == 0 {
      assert n == 0 && CombAt(m, n, i) == [];
    } else {
      var t := TrueCount(m, n);
      if i < t {
        var x := CombAt(m - 1, n - 1, i);
        assert CombAt(m, n, i) == x + [true];
        CombAtCount(m - 1, n - 1, i);
        CountTrueAppend(x, true);
        assert CountTrue(x + [true]) == n;
      } else {
        var x := CombAt(m - 1, n, i - t);
        assert CombAt(m, n, i) == x + [false];
        CombAtCount(m - 1, n, i - t);
        CountTrueAppend(x, false);
        assert CountTrue(x + [false]) == n;
      }
    }
  }

  /** One step of CombAt, for an index among the entries that end in `true`. */
  lemma CombAtTrue(m: nat, n: nat, i: nat)
    requires m > 0 && i < TrueCount(m, n)
    ensures n > 0 && i < Binom(m, n) && i < Binom(m - 1, n - 1)
    ensures CombAt(m, n, i) == CombAt(m - 1, n - 1, i) + [true]
  {
  }

  /** One step of CombAt, for an index among the entries that end in `false`. */
  lemma CombAtFalse(m: nat, n: nat, i: nat)
    requires m > 0 && TrueCount(m, n) <= i < Binom(m, n)
    ensures i - TrueCount(m, n) < Binom(m - 1, n)
    ensures CombAt(m, n, i) == CombAt(m - 1, n, i - TrueCount(m, n)) + [false]
  {
  }

  lemma OrderedBothTrue(m: nat, n: nat, i: nat, j: nat)
    requires m > 0 && i < j < TrueCount(m, n)
    requires Before(CombAt(m - 1, n - 1, i), CombAt(m - 1, n - 1, j))
    ensures Before(CombAt(m, n, i), CombAt(m, n, j))
  {
    CombAtTrue(m, n, i);
    CombAtTrue(m, n, j);
    BeforeAppendSame(CombAt(m - 1, n - 1, i), CombAt(m - 1, n - 1, j), true);
  }

  lemma OrderedBothFalse(m: nat, n: nat, i: nat, j: nat)
    requires m > 0 && TrueCount(m, n) <= i < j < Binom(m, n)
    requires Before(CombAt(m - 1, n, i - TrueCount(m, n)), CombAt(m - 1, n, j - TrueCount(m, n)))
    ensures Before(CombAt(m, n, i), CombAt(m, n, j))
  {
    CombAtFalse(m, n, i);
    CombAtFalse(m, n, j);
    BeforeAppendSame(CombAt(m - 1, n, i - TrueCount(m, n)), CombAt(m - 1, n, j - TrueCount(m, n)), false);
  }

  lemma OrderedTrueFalse(m: nat, n: nat, i: nat, j: nat)
    requires m > 0 && i < TrueCount(m, n) <= j < Binom(m, n)
    ensures Before(CombAt(m, n, i), CombAt(m, n, j))
  {
    CombAtTrue(m, n, i);
    CombAtFalse(m, n, j);
    CombAtLength(m - 1, n - 1, i);
    CombAtLength(m - 1, n, j - TrueCount(m, n));
    BeforeLast(CombAt(m - 1, n - 1, i), CombAt(m - 1, n, j - TrueCount(m, n)));
  }

  lemma {:induction false} CombAtOrdered(m: nat, n: nat, i: nat, j: nat)
    requires i < j < Binom(m, n)
    ensures Before(CombAt(m, n, i), CombAt(m, n, j))
  {
    if m == 0 {
      assert false;
    } else {
      var t := TrueCount(m, n);
      if j < t {
        CombAtTrue(m, n, j);
        CombAtOrdered(m - 1, n - 1, i, j);
        OrderedBothTrue(m, n, i, j);
      } else if i >= t {
        CombAtFalse(m, n, j);
        CombAtOrdered(m - 1, n, i - t, j - t);
        OrderedBothFalse(m, n, i, j);
      } else {
        OrderedTrueFalse(m, n, i, j);
      }
    }
  }

  /** The position of c in allComb(|c|, CountTrue(c)). */
  function CombIndex(c: seq<bool>): nat
  {
    if c == [] then 0
    else if c[|c| - 1] then CombIndex(c[..|c| - 1])
    else TrueCount(|c|, CountTrue(c)) + CombIndex(c[..|c| - 1])
  }

  /** Pascal's rule in terms of the split point of row m. */
  lemma BinomSplit(m: nat, n: nat)
    requires m > 0
    ensures Binom(m, n) == TrueCount(m, n) + Binom(m - 1, n)
  {
  }

  lemma {:induction false} CombIndexFinds(c: seq<bool>)
    ensures CombIndex(c) < Binom(|c|, CountTrue(c))
    ensures CombAt(|c|, CountTrue(c), CombIndex(c)) == c
  {
    if c != [] {
      var m, p, b := |c|, c[..|c| - 1], c[|c| - 1];
      assert c == p + [b];
      var n, ip := CountTrue(c), CombIndex(p);
      CombIndexFinds(p);
      BinomSplit(m, n);
      if b {
        assert n == CountTrue(p) + 1 && CombIndex(c) == ip;
        CombAtTrue(m, n, ip);
      } else {
        assert n == CountTrue(p) && CombIndex(c) == TrueCount(m, n) + ip;
        CombAtFalse(m, n, TrueCount(m, n) + ip);
      }
    }
  }

  /** allComb(m, n) lists exactly the sequences of length m with n true values. */
  lemma CombMembers(m: nat, n: nat)
    ensures forall c :: c in Comb(m, n) <==> |c| == m && CountTrue(c) == n
  {
    forall c | c in Comb(m, n)
      ensures |c| == m && CountTrue(c) == n
    {
      var i :| 0 <= i < |Comb(m, n)| && Comb(m, n)[i] == c;
      CombAtLength(m, n, i);
      CombAtCount(m, n, i);
    }
    forall c | |c| == m && CountTrue(c) == n
      ensures c in Comb(m, n)
    {
      CombIndexFinds(c);
      assert Comb(m, n)[CombIndex(c)] == c;
    }
  }

  /** allComb(m, n) lists its entries in strictly increasing Before order; in
      particular it has no duplicates. */
  lemma CombOrdered(m: nat, n: nat)
    ensures forall i, j :: 0 <= i < j < |Comb(m, n)| ==> Before(Comb(m, n)[i], Comb(m, n)[j])
    ensures forall i, j :: 0 <= i < j < |Comb(m, n)| ==> Comb(m, n)[i] != Comb(m, n)[j]
  {
    forall i, j | 0 <= i < j < |Comb(m, n)|
      ensures Before(Comb(m, n)[i], Comb(m, n)[j])
      ensures Comb(m, n)[i] != Comb(m, n)[j]
    {
      CombAtOrdered(m, n, i, j);
      BeforeIrreflexive(Comb(m, n)[i]);
    }
  }

  /** allComb(m, n) yields m! / (n! (m-n)!) candidates, at least one. */
  lemma CombSize(m: nat, n: nat)
    requires n <= m
    ensures |Comb(m, n)| * (Fact(n) * Fact(m - n)) == Fact(m)
    ensures |Comb(m, n)| > 0
  {
    BinomFactorial(m, n);
    BinomPositive(m, n);
  }

  // ---------------------------------------------------------------------------
  // Scoring a candidate
  // ---------------------------------------------------------------------------

  /** The section that layer i falls in under candidate perm: the number of splits
      marked before it. perm[i] past the end of perm counts as no split. */
  function SectionOf(perm: seq<bool>, i: nat): nat
  {
    CountTrue(perm[..if i <= |perm| then i else |perm|])
  }

  lemma SectionOfStep(perm: seq<bool>, i: nat)
    ensures SectionOf(perm, i + 1) == SectionOf(perm, i) + (if i < |perm| && perm[i] then 1 else 0)
  {
    if i < |perm| {
      assert perm[..i + 1] == perm[..i] + [perm[i]];
      CountTrueAppend(perm[..i], perm[i]);
    }
  }

  /** A layer never falls past section CountTrue(perm): curSec stays below the
      number of sections whenever perm has at most sections - 1 splits. */
  lemma SectionOfBound(perm: seq<bool>, i: nat)
    ensures SectionOf(perm, i) <= CountTrue(perm)
  {
    CountTruePrefix(perm, if i <= |perm| then i else |perm|);
  }

  /** Total height of the layers of hs that candidate perm puts in section k. */
  function SectionTotal(hs: seq<nat>, perm: seq<bool>, k: int): nat
  {
    if hs == [] then 0
    else SectionTotal(hs[..|hs| - 1], perm, k) + (if SectionOf(perm, |hs| - 1) == k then hs[|hs| - 1] else 0)
  }

  /** The `heights` array of one candidate. */
  function SectionHeights(hs: seq<nat>, perm: seq<bool>, sections: nat): (r: seq<nat>)
    ensures |r| == sections
  {
    seq(sections, k => SectionTotal(hs, perm, k))
  }

  function Sum(s: seq<nat>): nat
  {
    if s == [] then 0 else Sum(s[..|s| - 1]) + s[|s| - 1]
  }

  lemma {:induction false} SumZeros(s: seq<nat>)
    requires forall k :: 0 <= k < |s| ==> s[k] == 0
    ensures Sum(s) == 0
  {
    if s != [] {
      SumZeros(s[..|s| - 1]);
    }
  }

  lemma {:induction false} SumAddAt(a: seq<nat>, b: seq<nat>, k0: nat, x: nat)
    requires |a| == |b| && k0 < |a|
    requires forall k :: 0 <= k < |a| ==> b[k] == a[k] + (if k == k0 then x else 0)
    ensures Sum(b) == Sum(a) + x
  {
    var n := |a|;
    if k0 == n - 1 {
      assert a[..n - 1] == b[..n - 1];
    } else {
      SumAddAt(a[..n - 1], b[..n - 1], k0, x);
    }
  }

  /** Whatever the candidate, the section totals add up to the total height of
      all layers, provided it has fewer splits than there are sections. */
  lemma {:induction false} SectionHeightsSum(hs: seq<nat>, perm: seq<bool>, sections: nat)
    requires CountTrue(perm) < sections
    ensures Sum(SectionHeights(hs, perm, sections)) == Sum(hs)
  {
    if hs == [] {
      SumZeros(SectionHeights(hs, perm, sections));
    } else {
      var n := |hs|;
      var init := hs[..n - 1];
      SectionHeightsSum(init, perm, sections);
      SectionOfBound(perm, n - 1);
      SumAddAt(SectionHeights(init, perm, sections), SectionHeights(hs, perm, sections),
               SectionOf(perm, n - 1), hs[n - 1]);
    }
  }

  /** `Math.max(...s)`. */
  function MaxOf(s: seq<nat>): nat
    requires |s| > 0
  {
    if |s| == 1 then s[0]
    else
      var m := MaxOf(s[..|s| - 1]);
      if m < s[|s| - 1] then s[|s| - 1] else m
  }

  /** MaxOf picks an entry of s that no entry exceeds. */
  lemma {:induction false} MaxOfIsMax(s: seq<nat>)
    requires |s| > 0
    ensures exists k :: 0 <= k < |s| && s[k] == MaxOf(s)
    ensures forall k :: 0 <= k < |s| ==> s[k] <= MaxOf(s)
  {
    if |s| == 1 {
      assert s[0] == MaxOf(s);
    } else {
      var init := s[..|s| - 1];
      MaxOfIsMax(init);
      if MaxOf(init) < s[|s| - 1] {
        assert s[|s| - 1] == MaxOf(s);
      } else {
        var k :| 0 <= k < |init| && init[k] == MaxOf(init);
        assert s[k] == MaxOf(s);
      }
    }
  }

  /** The height of the tallest section under candidate perm. */
  function Cost(hs: seq<nat>, perm: seq<bool>, sections: nat): nat
    requires sections > 0
  {
    MaxOf(SectionHeights(hs, perm, sections))
  }

  /** Separating the layers never beats stacking them all together: every
      candidate costs at least the tallest layer and at most the total height. */
  lemma CostBounds(hs: seq<nat>, perm: seq<bool>, sections: nat)
    requires CountTrue(perm) < sections
    ensures Cost(hs, perm, sections) <= Sum(hs)
    ensures forall i :: 0 <= i < |hs| ==> hs[i] <= Cost(hs, perm, sections)
  {
    var heights := SectionHeights(hs, perm, sections);
    MaxOfIsMax(heights);
    SectionHeightsSum(hs, perm, sections);
    var k :| 0 <= k < |heights| && heights[k] == MaxOf(heights);
    SumAtLeastEach(heights, k);
    forall i | 0 <= i < |hs|
      ensures hs[i] <= Cost(hs, perm, sections)
    {
      var sec := SectionOf(perm, i);
      SectionOfBound(perm, i);
      SectionTotalHolds(hs, perm, i);
      assert hs[i] <= heights[sec];
    }
  }

  lemma {:induction false} SumAtLeastEach(s: seq<nat>, k: nat)
    requires k < |s|
    ensures s[k] <= Sum(s)
  {
    if k < |s| - 1 {
      SumAtLeastEach(s[..|s| - 1], k);
    }
  }

  lemma {:induction false} SectionTotalHolds(hs: seq<nat>, perm: seq<bool>, i: nat)
    requires i < |hs|
    ensures hs[i] <= SectionTotal(hs, perm, SectionOf(perm, i))
  {
    var n := |hs|;
    if i < n - 1 {
      SectionTotalHolds(hs[..n - 1], perm, i);
    }
  }

  /** The index the search keeps after scanning costs[..n]: an entry replaces the
      current best when it is no larger, so ties go to the later entry. */
  function LastMinIndex(costs: seq<nat>, n: nat): (r: nat)
    requires 0 < n <= |costs|
    ensures r < n
  {
    if n == 1 then 0
    else
      var j := LastMinIndex(costs, n - 1);
      if costs[n - 1] <= costs[j] then n - 1 else j
  }

  /** Among costs[..n], LastMinIndex picks a minimum, and every later entry is
      strictly larger: it is the last minimum. */
  lemma {:induction false} LastMinIndexIsLastMin(costs: seq<nat>, n: nat, k: nat)
    requires 0 < n <= |costs| && k < n
    ensures costs[LastMinIndex(costs, n)] <= costs[k]
    ensures LastMinIndex(costs, n) < k ==> costs[LastMinIndex(costs, n)] < costs[k]
  {
    if n > 1 {
      if k < n - 1 {
        LastMinIndexIsLastMin(costs, n - 1, k);
      } else {
        LastMinIndexIsLastMin(costs, n - 1, LastMinIndex(costs, n - 1));
      }
    }
  }

  /** The candidates of the search over hs: every way to place sections - 1
      breaks into the |hs| - 1 gaps, in allComb order. */
  function Candidates(hs: seq<nat>, sections: nat): seq<seq<bool>>
    requires 1 <= sections <= |hs|
  {
    Comb(|hs| - 1, sections - 1)
  }

  function Costs(hs: seq<nat>, perms: seq<seq<bool>>, sections: nat): (r: seq<nat>)
    requires sections > 0
    ensures |r| == |perms|
  {
    seq(|perms|, k requires 0 <= k < |perms| => Cost(hs, perms[k], sections))
  }

  /** The position, in allComb order, of the candidate the search settles on. */
  function OptimalIndex(hs: seq<nat>, sections: nat): (j: nat)
    requires 1 <= sections <= |hs|
    ensures j < |Candidates(hs, sections)|
  {
    var perms := Candidates(hs, sections);
    CombSize(|hs| - 1, sections - 1);
    LastMinIndex(Costs(hs, perms, sections), |perms|)
  }

  /** The candidate the search settles on: the last one, in allComb order, whose
      tallest section is as short as possible. */
  function OptimalSplits(hs: seq<nat>, sections: nat): (best: seq<bool>)
    requires 1 <= sections <= |hs|
    ensures |best| == |hs| - 1
  {
    var j := OptimalIndex(hs, sections);
    CombAtLength(|hs| - 1, sections - 1, j);
    Candidates(hs, sections)[j]
  }

  /** The chosen candidate is one of the candidates, so it has |hs| - 1 flags of
      which exactly sections - 1 are set. */
  lemma OptimalSplitsIsCandidate(hs: seq<nat>, sections: nat)
    requires 1 <= sections <= |hs|
    ensures OptimalSplits(hs, sections) in Candidates(hs, sections)
    ensures CountTrue(OptimalSplits(hs, sections)) == sections - 1
  {
    CandidateAt(hs, sections, OptimalIndex(hs, sections));
  }

  lemma CandidateAt(hs: seq<nat>, sections: nat, j: nat)
    requires 1 <= sections <= |hs| && j < |Candidates(hs, sections)|
    ensures Candidates(hs, sections)[j] in Candidates(hs, sections)
    ensures CountTrue(Candidates(hs, sections)[j]) == sections - 1
  {
    CombAtCount(|hs| - 1, sections - 1, j);
  }

  /** No candidate has a shorter tallest section than the chosen one. */
  lemma OptimalSplitsIsOptimal(hs: seq<nat>, sections: nat, k: nat)
    requires 1 <= sections <= |hs|
    requires k < |Candidates(hs, sections)|
    ensures Cost(hs, OptimalSplits(hs, sections), sections) <= Cost(hs, Candidates(hs, sections)[k], sections)
  {
    var perms := Candidates(hs, sections);
    var costs := Costs(hs, perms, sections);
    var j := OptimalIndex(hs, sections);
    assert j == LastMinIndex(costs, |perms|);
    LastMinIndexIsLastMin(costs, |perms|, k);
    assert costs[j] <= costs[k];
  }

  /** The tie-break of the `<=` comparison: any other candidate as good as the
      chosen one comes before it in allComb order, so the last one wins. */
  lemma OptimalSplitsIsLastOfTies(hs: seq<nat>, sections: nat, k: nat)
    requires 1 <= sections <= |hs|
    requires k < |Candidates(hs, sections)|
    requires Candidates(hs, sections)[k] != OptimalSplits(hs, sections)
    requires Cost(hs, Candidates(hs, sections)[k], sections) <= Cost(hs, OptimalSplits(hs, sections), sections)
    ensures k < OptimalIndex(hs, sections)
    ensures Before(Candidates(hs, sections)[k], OptimalSplits(hs, sections))
  {
    var perms := Candidates(hs, sections);
    var costs := Costs(hs, perms, sections);
    var j := OptimalIndex(hs, sections);
    assert j == LastMinIndex(costs, |perms|);
    assert perms[j] == OptimalSplits(hs, sections);
    assert costs[k] == Cost(hs, perms[k], sections) && costs[j] == Cost(hs, perms[j], sections);
    LastMinIndexIsLastMin(costs, |perms|, k);
    assert k < j;
    CandidatesOrdered(hs, sections, k, j);
  }

  lemma CandidatesOrdered(hs: seq<nat>, sections: nat, i: nat, j: nat)
    requires 1 <= sections <= |hs| && i < j < |Candidates(hs, sections)|
    ensures Before(Candidates(hs, sections)[i], Candidates(hs, sections)[j])
  {
    CombAtOrdered(|hs| - 1, sections - 1, i, j);
  }

  // ---------------------------------------------------------------------------
  // packLayersIntoSections and makeLegend
  // ---------------------------------------------------------------------------

  /** One legend layer: its height, its section-break flag, and the rest of the
      layer, which the partitioner never looks at. */
  datatype Layer<T> = Layer(height: nat, splitBefore: bool, info: T)

  function Heights<T>(layers: seq<Layer<T>>): (hs: seq<nat>)
    ensures |hs| == |layers|
    ensures forall i :: 0 <= i < |layers| ==> hs[i] == layers[i].height
  {
    seq(|layers|, i requires 0 <= i < |layers| => layers[i].height)
  }

  function Flags<T>(layers: seq<Layer<T>>): (fs: seq<bool>)
    ensures |fs| == |layers|
    ensures forall i :: 0 <= i < |layers| ==> fs[i] == layers[i].splitBefore
  {
    seq(|layers|, i requires 0 <= i < |layers| => layers[i].splitBefore)
  }

  /** layers with the first splitBefore cleared and splitBefore of layer i + 1 set
      to splits[i]; everything else as it was. */
  function ApplySplits<T>(layers: seq<Layer<T>>, splits: seq<bool>): seq<Layer<T>>
    requires |layers| == |splits| + 1
  {
    seq(|layers|, i requires 0 <= i < |layers| =>
      layers[i].(splitBefore := if i == 0 then false else splits[i - 1]))
  }

  /** After the search, the first layer has no break, the others carry the chosen
      candidate, exactly sections - 1 breaks are set, and the heights and the
      opaque parts of the layers, their number and their order are unchanged. */
  lemma PackedLayers<T>(layers: seq<Layer<T>>, sections: nat)
    requires 1 <= sections <= |layers|
    ensures var packed := ApplySplits(layers, OptimalSplits(Heights(layers), sections));
      && |packed| == |layers|
      && Flags(packed) == [false] + OptimalSplits(Heights(layers), sections)
      && CountTrue(Flags(packed)) == sections - 1
      && Heights(packed) == Heights(layers)
      && forall i :: 0 <= i < |layers| ==> packed[i].info == layers[i].info
  {
    var best := OptimalSplits(Heights(layers), sections);
    OptimalSplitsIsCandidate(Heights(layers), sections);
    var packed := ApplySplits(layers, best);
    assert Flags(packed) == [false] + best;
    CountTruePrepend(false, best);
  }

  /** The search of packLayersIntoSections: enumerate the candidates with allComb
      and keep the best one. */
  method BestSplits(hs: seq<nat>, sections: nat) returns (best: seq<bool>)
    requires 1 <= sections <= |hs|
    ensures best == OptimalSplits(hs, sections)
  {
    var potentialSplits := |hs| - 1;
    var requiredSplits := sections - 1;
    var permutations := AllComb(potentialSplits, requiredSplits);
    assert permutations == Candidates(hs, sections);
    CombSize(potentialSplits, requiredSplits);
    forall k | 0 <= k < |permutations|
      ensures CountTrue(permutations[k]) < sections
    {
      CombAtCount(potentialSplits, requiredSplits, k);
    }
    best := ScanCandidates(hs, sections, permutations);
  }

  /** The `permutations.forEach` loop: score every candidate and keep the last one
      whose tallest section is no taller than the best so far. */
  method ScanCandidates(hs: seq<nat>, sections: nat, permutations: seq<seq<bool>>) returns (best: seq<bool>)
    requires 0 < sections && 0 < |permutations|
    requires forall k :: 0 <= k < |permutations| ==> CountTrue(permutations[k]) < sections
    ensures best == permutations[LastMinIndex(Costs(hs, permutations, sections), |permutations|)]
  {
    ghost var costs := Costs(hs, permutations, sections);
    var bestHeight: Option<nat> := None;  // None stands for Number.MAX_VALUE
    var bestPerm: Option<seq<bool>> := None;  // None stands for null
    var heights := new nat[sections];
    for j := 0 to |permutations|
      invariant j == 0 ==> bestHeight == None && bestPerm == None
      invariant j > 0 ==> bestHeight == Some(costs[LastMinIndex(costs, j)])
      invariant j > 0 ==> bestPerm == Some(permutations[LastMinIndex(costs, j)])
    {
      var perm := permutations[j];
      var h := CandidateCost(heights, hs, perm);
      assert h == costs[j];
      if bestHeight.None? || h <= bestHeight.value {
        bestHeight := Some(h);
        bestPerm := Some(perm);
      }
    }
    best := bestPerm.value;
  }

  /** One candidate's score: fill the section totals, then take their maximum. */
  method CandidateCost(heights: array<nat>, hs: seq<nat>, perm: seq<bool>) returns (h: nat)
    requires CountTrue(perm) < heights.Length
    modifies heights
    ensures heights[..] == SectionHeights(hs, perm, heights.Length)
    ensures h == Cost(hs, perm, heights.Length)
  {
    FillSectionHeights(heights, hs, perm);
    h := MaxOf(heights[..]);
  }

  /** The per-candidate scoring: `heights.fill(0)`, then add each layer's height
      to its section, moving to the next section after every marked split. */
  method FillSectionHeights(heights: array<nat>, hs: seq<nat>, perm: seq<bool>)
    requires CountTrue(perm) < heights.Length
    modifies heights
    ensures heights[..] == SectionHeights(hs, perm, heights.Length)
  {
    forall k | 0 <= k < heights.Length {
      heights[k] := 0;
    }
    var curSec := 0;
    for i := 0 to |hs|
      invariant curSec == SectionOf(perm, i)
      invariant forall k :: 0 <= k < heights.Length ==> heights[k] == SectionTotal(hs[..i], perm, k)
    {
      SectionOfBound(perm, i);
      assert hs[..i + 1][..i] == hs[..i];
      heights[curSec] := heights[curSec] + hs[i];
      if i < |perm| && perm[i] {
        curSec := curSec + 1;
      }
      SectionOfStep(perm, i);
    }
    assert hs[..|hs|] == hs;
  }

  /** packLayersIntoSections: run the search and write the winning candidate onto
      the layers' splitBefore flags; the array itself is returned. */
  method PackLayersIntoSections<T>(layers: array<Layer<T>>, sections: nat) returns (r: array<Layer<T>>)
    requires 1 <= sections <= layers.Length
    modifies layers
    ensures r == layers
    ensures layers[..] == ApplySplits(old(layers[..]), OptimalSplits(Heights(old(layers[..])), sections))
  {
    var best := BestSplits(Heights(layers[..]), sections);
    WriteSplits(layers, best);
    r := layers;
  }

  /** The loop of packLayersIntoSections that copies the candidate onto the
      layers: the first layer gets no break, layer i + 1 gets splits[i]. */
  method WriteSplits<T>(layers: array<Layer<T>>, splits: seq<bool>)
    requires layers.Length == |splits| + 1
    modifies layers
    ensures layers[..] == ApplySplits(old(layers[..]), splits)
  {
    ghost var before := layers[..];
    layers[0] := layers[0].(splitBefore := false);
    for i := 0 to |splits|
      invariant layers[0] == before[0].(splitBefore := false)
      invariant forall k :: 1 <= k <= i ==> layers[k] == before[k].(splitBefore := splits[k - 1])
      invariant forall k :: i < k < layers.Length ==> layers[k] == before[k]
    {
      layers[i + 1] := layers[i + 1].(splitBefore := splits[i]);
    }
    ghost var packed := ApplySplits(before, splits);
    assert forall k :: 0 <= k < layers.Length ==> layers[k] == packed[k];
  }

  /** What makeLegend returns: the guard paths wrap the untouched list with a
      section count of 1, the search path returns the layer array itself. */
  datatype LegendResult<T> =
    | Unsplit(layerList: array<Layer<T>>, sectionsUsed: nat)
    | Packed(layers: array<Layer<T>>)

  /** makeLegend: skip the search for more than TooManyLayers layers or when there
      are no more layers than sections, otherwise pack. */
  method MakeLegend<T>(layerList: array<Layer<T>>, sectionsAvailable: nat) returns (r: LegendResult<T>)
    requires sectionsAvailable >= 1 || layerList.Length <= sectionsAvailable || layerList.Length > TooManyLayers
    modifies layerList
    ensures layerList.Length > TooManyLayers ==>
      r == Unsplit(layerList, 1) && layerList[..] == old(layerList[..])
    ensures layerList.Length <= TooManyLayers && layerList.Length <= sectionsAvailable ==>
      r == Unsplit(layerList, 1) && layerList[..] == old(layerList[..])
    ensures sectionsAvailable < layerList.Length <= TooManyLayers ==>
      r == Packed(layerList) &&
      layerList[..] == ApplySplits(old(layerList[..]), OptimalSplits(Heights(old(layerList[..])), sectionsAvailable))
  {
    if layerList.Length > TooManyLayers {
      return Unsplit(layerList, 1);
    }
    if layerList.Length <= sectionsAvailable {
      return Unsplit(layerList, 1);
    } else {
      var packed := PackLayersIntoSections(layerList, sectionsAvailable);
      return Packed(packed);
    }
  }

  /** When makeLegend takes the search path there is at least one candidate to
      score, so bestPerm is no longer null once the scan is over. */
  lemma SearchPathHasCandidates(layerCount: nat, sectionsAvailable: nat)
    requires 1 <= sectionsAvailable < layerCount <= TooManyLayers
    ensures |Comb(layerCount - 1, sectionsAvailable - 1)| >= 1
  {
    CombSize(layerCount - 1, sectionsAvailable - 1);
  }

  // ---------------------------------------------------------------------------
  // Worked scenarios
  // ---------------------------------------------------------------------------

  /** allComb(2, 1) and allComb(3, 1), written out. */
  lemma CombOfTwoOne()
    ensures Comb(2, 1) == [[false, true], [true, false]]
  {
    assert CombAt(2, 1, 0) == [false, true];
    assert CombAt(2, 1, 1) == [true, false];
  }

  lemma CombOfThreeOne()
    ensures Comb(3, 1) == [[false, false, true], [false, true, false], [true, false, false]]
  {
    assert CombAt(3, 1, 0) == [false, false, true];
    assert CombAt(3, 1, 1) == [false, true, false];
    assert CombAt(3, 1, 2) == [true, false, false];
  }

  lemma SectionTotalSnoc(hs: seq<nat>, h: nat, perm: seq<bool>, k: int)
    ensures SectionTotal(hs + [h], perm, k) ==
      SectionTotal(hs, perm, k) + (if SectionOf(perm, |hs|) == k then h else 0)
  {
    assert (hs + [h])[..|hs|] == hs;
  }

  /** Where each of up to four layers lands under a candidate with three flags. */
  lemma SectionsOfThreeFlags(x: bool, y: bool, z: bool)
    ensures SectionOf([x, y, z], 0) == 0
    ensures SectionOf([x, y, z], 1) == (if x then 1 else 0)
    ensures SectionOf([x, y, z], 2) == (if x then 1 else 0) + (if y then 1 else 0)
    ensures SectionOf([x, y, z], 3) == (if x then 1 else 0) + (if y then 1 else 0) + (if z then 1 else 0)
  {
    var perm := [x, y, z];
    assert perm[..0] == [];
    assert perm[..1] == [x];
    assert perm[..2] == [x, y];
    assert perm[..3] == perm;
    CountTrueAppend([], x);
    CountTrueAppend([x], y);
    CountTrueAppend([x, y], z);
  }

  lemma SectionsOfTwoFlags(x: bool, y: bool)
    ensures SectionOf([x, y], 0) == 0
    ensures SectionOf([x, y], 1) == (if x then 1 else 0)
    ensures SectionOf([x, y], 2) == (if x then 1 else 0) + (if y then 1 else 0)
  {
    var perm := [x, y];
    assert perm[..0] == [];
    assert perm[..1] == [x];
    assert perm[..2] == perm;
    CountTrueAppend([], x);
    CountTrueAppend([x], y);
  }

  lemma TotalsOfThree(a: nat, b: nat, c: nat, perm: seq<bool>, k: int)
    ensures SectionTotal([a, b, c], perm, k) ==
      (if SectionOf(perm, 0) == k then a else 0) + (if SectionOf(perm, 1) == k then b else 0) +
      (if SectionOf(perm, 2) == k then c else 0)
  {
    var s0: seq<nat>, s1: seq<nat>, s2: seq<nat> := [], [a], [a, b];
    assert s1 == s0 + [a] && s2 == s1 + [b] && [a, b, c] == s2 + [c];
    SectionTotalSnoc(s0, a, perm, k);
    SectionTotalSnoc(s1, b, perm, k);
    SectionTotalSnoc(s2, c, perm, k);
  }

  lemma TotalsOfFour(a: nat, b: nat, c: nat, d: nat, perm: seq<bool>, k: int)
    ensures SectionTotal([a, b, c, d], perm, k) ==
      (if SectionOf(perm, 0) == k then a else 0) + (if SectionOf(perm, 1) == k then b else 0) +
      (if SectionOf(perm, 2) == k then c else 0) + (if SectionOf(perm, 3) == k then d else 0)
  {
    assert [a, b, c, d] == [a, b, c] + [d];
    TotalsOfThree(a, b, c, perm, k);
    SectionTotalSnoc([a, b, c], d, perm, k);
  }

  /** With two sections the cost is the taller of the two totals. */
  lemma CostOfTwoSections(hs: seq<nat>, perm: seq<bool>)
    ensures Cost(hs, perm, 2) ==
      var t0, t1 := SectionTotal(hs, perm, 0), SectionTotal(hs, perm, 1);
      if t0 < t1 then t1 else t0
  {
    var heights := SectionHeights(hs, perm, 2);
    assert MaxOf(heights[..1]) == heights[0];
    assert heights[0] == SectionTotal(hs, perm, 0) && heights[1] == SectionTotal(hs, perm, 1);
  }

  /** Four equal layers in two sections split in the middle: the candidates cost
      30, 20 and 30, and the second one wins. */
  lemma EqualLayersSplitInTheMiddle()
    ensures OptimalSplits([10, 10, 10, 10], 2) == [false, true, false]
  {
    var hs: seq<nat> := [10, 10, 10, 10];
    CombOfThreeOne();
    var perms := Candidates(hs, 2);
    assert perms == [[false, false, true], [false, true, false], [true, false, false]];
    forall k | 0 <= k < 3
      ensures Costs(hs, perms, 2)[k] == [30, 20, 30][k]
    {
      var x, y, z := perms[k][0], perms[k][1], perms[k][2];
      assert perms[k] == [x, y, z];
      SectionsOfThreeFlags(x, y, z);
      TotalsOfFour(10, 10, 10, 10, [x, y, z], 0);
      TotalsOfFour(10, 10, 10, 10, [x, y, z], 1);
      CostOfTwoSections(hs, [x, y, z]);
    }
    var costs := Costs(hs, perms, 2);
    assert costs == [30, 20, 30];
    assert LastMinIndex(costs, 3) == 1;
  }

  /** A dominating last layer gets a section of its own: the candidates cost 100,
      101 and 102. */
  lemma TallLastLayerIsIsolated()
    ensures OptimalSplits([1, 1, 1, 100], 2) == [false, false, true]
  {
    var hs: seq<nat> := [1, 1, 1, 100];
    CombOfThreeOne();
    var perms := Candidates(hs, 2);
    assert perms == [[false, false, true], [false, true, false], [true, false, false]];
    forall k | 0 <= k < 3
      ensures Costs(hs, perms, 2)[k] == [100, 101, 102][k]
    {
      var x, y, z := perms[k][0], perms[k][1], perms[k][2];
      assert perms[k] == [x, y, z];
      SectionsOfThreeFlags(x, y, z);
      TotalsOfFour(1, 1, 1, 100, [x, y, z], 0);
      TotalsOfFour(1, 1, 1, 100, [x, y, z], 1);
      CostOfTwoSections(hs, [x, y, z]);
    }
    var costs := Costs(hs, perms, 2);
    assert costs == [100, 101, 102];
    assert LastMinIndex(costs, 3) == 0;
  }

  /** Of two equally good candidates the later one wins: with three equal layers
      both [false, true] and [true, false] give a tallest section of 2, and
      [true, false] is generated last. */
  lemma TieGoesToTheLaterCandidate()
    ensures OptimalSplits([1, 1, 1], 2) == [true, false]
  {
    var hs: seq<nat> := [1, 1, 1];
    CombOfTwoOne();
    var perms := Candidates(hs, 2);
    assert perms == [[false, true], [true, false]];
    forall k | 0 <= k < 2
      ensures Costs(hs, perms, 2)[k] == 2
    {
      var x, y := perms[k][0], perms[k][1];
      assert perms[k] == [x, y];
      SectionsOfTwoFlags(x, y);
      TotalsOfThree(1, 1, 1, [x, y], 0);
      TotalsOfThree(1, 1, 1, [x, y], 1);
      CostOfTwoSections(hs, [x, y]);
    }
    var costs := Costs(hs, perms, 2);
    assert costs == [2, 2];
    assert LastMinIndex(costs, 2) == 1;
  }
}
