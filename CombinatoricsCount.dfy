/** How many combinations the revolving-door enumeration hands out, that none of them
    repeats and that every combination appears. Each state has a rank in the
    revolving-door order (Knuth, The Art of Computer Programming, volume 4A, section
    7.2.1.3): C(c_t + 1, t) - C(c_{t-1} + 1, t-1) + ... - 1 up to sign. The first
    combination has rank 0, each step of the algorithm raises the rank by exactly one,
    and the last combination has rank C(n, t) - 1. */
module CombinatoricsCount {
  import opened Wrappers
  import opened Integers
  import opened Combinatorics
  import ValueTypeExtensions

  /** The binomial coefficient C(n, k), by Pascal's rule; 0 when n <= 0 < k. */
  function Choose(n: int, k: nat): nat
    decreases if n < 0 then 0 else n
  {
    if k == 0 then 1 else if n <= 0 then 0 else Choose(n - 1, k - 1) + Choose(n - 1, k)
  }

  function Sign(k: nat): int
  {
    if k % 2 == 0 then 1 else -1
  }

  /** The rank of s_0 < ... < s_{t-1} in the revolving-door order. */
  function Rank(s: seq<int>): int
  {
    if s == [] then 0 else Choose(s[|s| - 1] + 1, |s|) - 1 - Rank(s[..|s| - 1])
  }

  // ---------------------------------------------------------------------------
  // Binomial coefficients

  lemma {:induction false} ChooseOne(x: int)
    requires 0 <= x
    ensures Choose(x, 1) == x
    decreases x
  {
    if x > 0 {
      ChooseOne(x - 1);
    }
  }

  lemma {:induction false} ChooseAbove(m: int, k: nat)
    requires m < k && 0 < k
    ensures Choose(m, k) == 0
    decreases if m < 0 then 0 else m
  {
    if m > 0 {
      ChooseAbove(m - 1, k - 1);
      ChooseAbove(m - 1, k);
    }
  }

  lemma {:induction false} ChooseAll(k: nat)
    ensures Choose(k, k) == 1
  {
    if k > 0 {
      ChooseAll(k - 1);
      ChooseAbove(k - 1, k);
    }
  }

  lemma {:induction false} ChooseMonotone(a: int, b: int, k: nat)
    requires a <= b
    ensures Choose(a, k) <= Choose(b, k)
    decreases b - a
  {
    if a < b {
      ChooseMonotone(a, b - 1, k);
      if k > 0 && b > 0 {
        assert Choose(b, k) == Choose(b - 1, k - 1) + Choose(b - 1, k);
      } else if k > 0 {
        assert Choose(b - 1, k) == 0 by { ChooseAbove(b - 1, k); }
      }
    }
  }

  // ---------------------------------------------------------------------------
  // Ranks

  /** Changing one position moves the rank by the change of that position's term, with
      the sign that position carries. */
  lemma {:induction false} RankUpdate(s: seq<int>, p: nat, v: int)
    requires p < |s|
    ensures Rank(s[p := v]) == Rank(s) + Sign(|s| - 1 - p) * (Choose(v + 1, p + 1) - Choose(s[p] + 1, p + 1))
    decreases |s|
  {
    var m := |s| - 1;
    var u := s[p := v];
    if p == m {
      assert u[..m] == s[..m];
    } else {
      assert u[..m] == s[..m][p := v];
      RankUpdate(s[..m], p, v);
    }
  }

  /** 0, 1, ..., k-1 is first. */
  lemma {:induction false} RankOfFirst(k: nat)
    ensures Rank(seq(k, i => i)) == 0
  {
    if k > 0 {
      assert seq(k, i => i)[..k - 1] == seq(k - 1, i => i);
      RankOfFirst(k - 1);
      ChooseAll(k);
    }
  }

  /** A combination whose largest element is x ranks in [C(x, t), C(x + 1, t)). */
  lemma {:induction false} RankBounds(s: seq<int>)
    requires Increasing(s) && (s != [] ==> 0 <= s[0])
    ensures s == [] ==> Rank(s) == 0
    ensures s != [] ==> Choose(s[|s| - 1], |s|) <= Rank(s) < Choose(s[|s| - 1] + 1, |s|)
    decreases |s|
  {
    if s != [] {
      var m := |s| - 1;
      var x := s[m];
      var p := s[..m];
      RankBounds(p);
      if m > 0 {
        assert p[m - 1] < x;
        assert Choose(p[m - 1] + 1, m) <= Choose(x, m) by { ChooseMonotone(p[m - 1] + 1, x, m); }
      }
      assert 0 <= x;
    }
  }

  /** A t-combination of {0, ..., n-1} ranks in [0, C(n, t)). */
  lemma RankRange(s: seq<int>, n: int, t: int)
    requires IsCombination(s, n, t)
    ensures 0 <= Rank(s) < Choose(n, t)
  {
    RankBounds(s);
    if s != [] {
      ChooseMonotone(s[|s| - 1] + 1, n, |s|);
    }
  }

  /** Two combinations of the same size with the same rank are the same. */
  lemma {:induction false} RankInjective(x: seq<int>, y: seq<int>)
    requires Increasing(x) && Increasing(y) && |x| == |y|
    requires x != [] ==> 0 <= x[0] && 0 <= y[0]
    requires Rank(x) == Rank(y)
    ensures x == y
    decreases |x|
  {
    if x != [] {
      var m := |x| - 1;
      RankBounds(x);
      RankBounds(y);
      if x[m] < y[m] {
        ChooseMonotone(x[m] + 1, y[m], |x|);
        assert false;
      } else if y[m] < x[m] {
        ChooseMonotone(y[m] + 1, x[m], |x|);
        assert false;
      }
      RankInjective(x[..m], y[..m]);
      assert x == x[..m] + [x[m]] && y == y[..m] + [y[m]];
    }
  }

  // ---------------------------------------------------------------------------
  // Each step of the algorithm raises the rank by one

  /** The combination of state d follows that of state c in the revolving-door order. */
  predicate RankedNext(c: seq<int>, d: seq<int>, t: int)
    requires t >= 2 && |c| == t + 2 && |d| == t + 2
  {
    Rank(Current(d, t)) == Rank(Current(c, t)) + 1
  }

  lemma CurrentUpdate(c: seq<int>, t: int, j: int, v: int)
    requires t >= 2 && |c| == t + 2 && 1 <= j <= t
    ensures Current(c[j := v], t) == Current(c, t)[j - 1 := v]
  {
  }

  /** R3 of the even branch: c_1 - 1. */
  lemma FirstDownRank(c: seq<int>, t: int, n: int)
    requires Valid(c, t, n) && c[1] > 0 && t % 2 == 0
    ensures RankedNext(c, c[1 := c[1] - 1], t)
  {
    CurrentUpdate(c, t, 1, c[1] - 1);
    RankUpdate(Current(c, t), 0, c[1] - 1);
    ChooseOne(c[1]);
    ChooseOne(c[1] + 1);
  }

  /** R3 of the odd branch: c_1 + 1. */
  lemma FirstUpRank(c: seq<int>, t: int, n: int)
    requires Valid(c, t, n) && c[1] + 1 < c[2] && t % 2 == 1
    ensures RankedNext(c, c[1 := c[1] + 1], t)
  {
    CurrentUpdate(c, t, 1, c[1] + 1);
    RankUpdate(Current(c, t), 0, c[1] + 1);
    ChooseOne(c[1] + 1);
    ChooseOne(c[1] + 2);
  }

  /** R5 on the combination: s[p-1] = p - 1 becomes s[p], and s[p] becomes s[p] + 1,
      at a position with an even number of positions after it. */
  lemma SeqIncreaseRank(s: seq<int>, p: int)
    requires 1 <= p < |s| && s[p - 1] == p - 1 && 0 <= s[p] && (|s| - 1 - p) % 2 == 0
    ensures Rank(s[p - 1 := s[p]][p := s[p] + 1]) == Rank(s) + 1
  {
    var a := s[p];
    var s1 := s[p - 1 := a];
    LowerTakesValue(s, p);
    RaiseByOne(s1, p, a);
  }

  /** The first half of R5: s[p-1] = p - 1 becomes s[p]. */
  lemma LowerTakesValue(s: seq<int>, p: int)
    requires 1 <= p < |s| && s[p - 1] == p - 1 && (|s| - 1 - p) % 2 == 0
    ensures Rank(s[p - 1 := s[p]]) == Rank(s) - Choose(s[p] + 1, p) + 1
  {
    RankUpdate(s, p - 1, s[p]);
    ChooseAll(p);
    assert Sign(|s| - p) == -1;
  }

  /** The second half of R5: s[p] = a becomes a + 1. */
  lemma RaiseByOne(s: seq<int>, p: int, a: int)
    requires 0 <= p < |s| && s[p] == a && 0 <= a && (|s| - 1 - p) % 2 == 0
    ensures Rank(s[p := a + 1]) == Rank(s) + Choose(a + 1, p)
  {
    RankUpdate(s, p, a + 1);
    assert Choose(a + 2, p + 1) == Choose(a + 1, p) + Choose(a + 1, p + 1);
    assert Sign(|s| - 1 - p) == 1;
  }

  /** R4 on the combination: s[p] = s[p-1] + 1 becomes s[p-1], and s[p-1] becomes p - 1,
      at a position with an odd number of positions after it. */
  lemma SeqDecreaseRank(s: seq<int>, p: int)
    requires 1 <= p < |s| && s[p] == s[p - 1] + 1 && 0 <= s[p - 1] && (|s| - 1 - p) % 2 == 1
    ensures Rank(s[p := s[p - 1]][p - 1 := p - 1]) == Rank(s) + 1
  {
    var a := s[p - 1];
    var s1 := s[p := a];
    assert Rank(s1) == Rank(s) + Choose(a + 1, p) by {
      RankUpdate(s, p, a);
      assert Choose(a + 2, p + 1) == Choose(a + 1, p) + Choose(a + 1, p + 1);
      assert Sign(|s| - 1 - p) == -1;
    }
    assert Rank(s1[p - 1 := p - 1]) == Rank(s1) + 1 - Choose(a + 1, p) by {
      RankUpdate(s1, p - 1, p - 1);
      ChooseAll(p);
      assert Sign(|s| - p) == 1;
    }
  }

  /** R5 at j: c_{j-1} = j - 2 becomes c_j, and c_j becomes c_j + 1. */
  lemma IncreaseRank(c: seq<int>, t: int, n: int, j: int)
    requires Valid(c, t, n) && 2 <= j <= t && c[j - 1] == j - 2 && (t - j) % 2 == 0
    ensures RankedNext(c, c[j - 1 := c[j]][j := c[j] + 1], t)
  {
    var a := c[j];
    var s := Current(c, t);
    CurrentUpdate(c, t, j - 1, a);
    CurrentUpdate(c[j - 1 := a], t, j, a + 1);
    assert 0 <= c[1] < a;
    SeqIncreaseRank(s, j - 1);
  }

  /** R4 at j: c_j = c_{j-1} + 1 becomes c_{j-1}, and c_{j-1} becomes j - 2. */
  lemma DecreaseRank(c: seq<int>, t: int, n: int, j: int)
    requires Valid(c, t, n) && 2 <= j <= t && c[j] == c[j - 1] + 1 && (t - j) % 2 == 1
    ensures RankedNext(c, c[j := c[j - 1]][j - 1 := j - 2], t)
  {
    var a := c[j - 1];
    var s := Current(c, t);
    CurrentUpdate(c, t, j, a);
    CurrentUpdate(c[j := a], t, j - 1, j - 2);
    assert 0 <= c[1] <= a;
    SeqDecreaseRank(s, j - 1);
  }

  /** The last state: 0, 1, ..., t-2 and n-1. */
  predicate IsLast(c: seq<int>, t: int, n: int)
    requires t >= 2 && |c| == t + 2
  {
    (forall k :: 1 <= k <= t - 1 ==> c[k] == k - 1) && c[t] == n - 1
  }

  lemma LastRank(c: seq<int>, t: int, n: int)
    requires Valid(c, t, n) && IsLast(c, t, n)
    ensures Rank(Current(c, t)) == Choose(n, t) - 1
  {
    var s := Current(c, t);
    assert s[..t - 1] == seq(t - 1, i => i);
    RankOfFirst(t - 1);
  }

  /** The step s from state c either moves to the next combination in the
      revolving-door order or stops at the last one. */
  predicate RankedStep(c: seq<int>, s: Step, t: int, n: int)
    requires t >= 2 && |c| == t + 2 && |s.c| == t + 2
  {
    (s.j <= t ==> RankedNext(c, s.c, t)) && (s.j > t ==> IsLast(c, t, n))
  }

  /** The even branch's inner loop reaches R5 at j. */
  lemma ScanEvenIncrease(c: seq<int>, t: int, n: int, j: int)
    requires Valid(c, t, n) && 2 <= j <= t && t % 2 == 0 && j % 2 == 0
    requires c[j - 1] == j - 2 && c[j] + 1 < c[j + 1]
    ensures RankedStep(c, ScanEven(c, t, j), t, n)
  {
    assert ScanEven(c, t, j) == Step(c[j - 1 := c[j]][j := c[j] + 1], j, true);
    IncreaseRank(c, t, n, j);
  }

  /** The even branch's inner loop reaches R4 at j + 1, or stops when j = t. */
  lemma ScanEvenDecrease(c: seq<int>, t: int, n: int, j: int)
    requires Valid(c, t, n) && 2 <= j <= t && t % 2 == 0 && j % 2 == 0
    requires forall k :: 1 <= k <= j - 1 ==> c[k] == k - 1
    requires c[j + 1] == c[j] + 1 && c[j + 1] >= j + 1
    ensures RankedStep(c, ScanEven(c, t, j), t, n)
  {
    assert ScanEven(c, t, j).c == c[j + 1 := c[j]][j := j - 1] && ScanEven(c, t, j).j == j + 1;
    if j + 1 <= t {
      DecreaseRank(c, t, n, j + 1);
    }
  }

  lemma {:induction false} ScanEvenRank(c: seq<int>, t: int, n: int, j: int)
    requires Valid(c, t, n) && 2 <= j <= t + 2 && j % 2 == 0 && t % 2 == 0
    requires forall k :: 1 <= k <= j - 1 ==> c[k] == k - 1
    ensures RankedStep(c, ScanEven(c, t, j), t, n)
    decreases t + 2 - j
  {
    if j > t {
      assert ScanEven(c, t, j) == Step(c, j, true);
    } else if c[j] + 1 < c[j + 1] {
      ScanEvenIncrease(c, t, n, j);
    } else if c[j + 1] >= j + 1 {
      ScanEvenDecrease(c, t, n, j);
    } else {
      assert c[j - 1] < c[j] < c[j + 1];
      ScanEvenRank(c, t, n, j + 2);
      assert ScanEven(c, t, j).c == ScanEven(c, t, j + 2).c && ScanEven(c, t, j).j == ScanEven(c, t, j + 2).j;
    }
  }

  /** The odd branch's inner loop reaches R5 at j + 1. */
  lemma ScanOddIncrease(c: seq<int>, t: int, n: int, j: int)
    requires Valid(c, t, n) && 2 <= j <= t && t % 2 == 1 && j % 2 == 0
    requires c[j] == c[j - 1] + 1 && c[j] == j - 1 && c[j + 1] + 1 < c[j + 2]
    ensures RankedStep(c, ScanOdd(c, t, j), t, n)
  {
    assert ScanOdd(c, t, j).c == c[j := c[j + 1]][j + 1 := c[j + 1] + 1] && ScanOdd(c, t, j).j == j + 1;
    IncreaseRank(c, t, n, j + 1);
  }

  /** The odd branch's inner loop reaches R4 at j. */
  lemma ScanOddDecrease(c: seq<int>, t: int, n: int, j: int)
    requires Valid(c, t, n) && 2 <= j <= t && t % 2 == 1 && j % 2 == 0
    requires c[j] == c[j - 1] + 1 && c[j] >= j
    ensures RankedStep(c, ScanOdd(c, t, j), t, n)
  {
    assert ScanOdd(c, t, j) == Step(c[j := c[j - 1]][j - 1 := j - 2], j, true);
    DecreaseRank(c, t, n, j);
  }

  lemma {:induction false} ScanOddRank(c: seq<int>, t: int, n: int, j: int)
    requires Valid(c, t, n) && 2 <= j <= t + 1 && j % 2 == 0 && t % 2 == 1
    requires forall k :: 1 <= k <= j - 2 ==> c[k] == k - 1
    requires c[j] == c[j - 1] + 1
    ensures RankedStep(c, ScanOdd(c, t, j), t, n)
    decreases t + 2 - j
  {
    if j > t {
      assert ScanOdd(c, t, j) == Step(c, j, true);
    } else if c[j] >= j {
      ScanOddDecrease(c, t, n, j);
    } else {
      BelowDiagonal(c, t, n, j);
      if c[j + 1] + 1 < c[j + 2] {
        ScanOddIncrease(c, t, n, j);
      } else {
        ScanOddRank(c, t, n, j + 2);
        assert ScanOdd(c, t, j).c == ScanOdd(c, t, j + 2).c && ScanOdd(c, t, j).j == ScanOdd(c, t, j + 2).j;
      }
    }
  }

  /** Every step from a valid state either moves to the next combination in the
      revolving-door order or ends the enumeration at the last one. */
  lemma NextRank(c: seq<int>, t: int, n: int, j: int)
    requires Valid(c, t, n) && j <= t
    ensures RankedStep(c, Next(c, t, j), t, n)
  {
    if t % 2 == 0 {
      if c[1] > 0 {
        FirstDownRank(c, t, n);
      } else {
        ScanEvenRank(c, t, n, 2);
      }
    } else {
      if c[1] + 1 < c[2] {
        FirstUpRank(c, t, n);
      } else {
        ScanOddRank(c, t, n, 2);
      }
    }
  }

  // ---------------------------------------------------------------------------
  // Counting the outputs

  /** The items have consecutive ranks from `base` on. */
  predicate RanksFrom(outs: seq<seq<int>>, base: int)
  {
    forall k :: 0 <= k < |outs| ==> Rank(outs[k]) == base + k
  }

  lemma RanksPrepend(x: seq<int>, rest: seq<seq<int>>, base: int)
    requires Rank(x) == base && RanksFrom(rest, base + 1)
    ensures RanksFrom([x] + rest, base)
  {
    var outs := [x] + rest;
    forall k | 0 <= k < |outs|
      ensures Rank(outs[k]) == base + k
    {
      if k > 0 {
        assert outs[k] == rest[k - 1];
      }
    }
  }

  /** The count and the ranks of a run, for a consumer that asks for `limit` items from
      a state of rank Rank(Current(c, t)). */
  predicate Counted(c: seq<int>, t: int, n: int, j: int, limit: nat)
    requires t >= 2 && |c| == t + 2
  {
    var outs := Run(c, t, j, limit).outs;
    |outs| == Min(limit, Choose(n, t) - Rank(Current(c, t))) && RanksFrom(outs, Rank(Current(c, t)))
  }

  /** One request more: the current combination, then the rest of the run. */
  lemma CountedStep(c: seq<int>, t: int, n: int, j: int, limit: nat)
    requires Valid(c, t, n) && j <= t && limit > 1
    requires Next(c, t, j).j <= t ==> Counted(Next(c, t, j).c, t, n, Next(c, t, j).j, limit - 1)
    ensures Counted(c, t, n, j, limit)
  {
    var x := Current(c, t);
    var s := Next(c, t, j);
    var rest := Run(s.c, t, s.j, limit - 1).outs;
    ValidIsCombination(c, t, n);
    RankRange(x, n, t);
    assert Run(c, t, j, limit).outs == [x] + rest by {
      RunUnfold(c, t, j, limit);
    }
    assert |rest| == Min(limit - 1, Choose(n, t) - Rank(x) - 1) && RanksFrom(rest, Rank(x) + 1) by {
      NextRank(c, t, n, j);
      if s.j > t {
        LastRank(c, t, n);
      }
    }
    RanksPrepend(x, rest, Rank(x));
  }

  /** A consumer that asks for at most one item gets the current combination. */
  lemma CountedShort(c: seq<int>, t: int, n: int, j: int, limit: nat)
    requires Valid(c, t, n) && j <= t && limit <= 1
    ensures Counted(c, t, n, j, limit)
  {
    var x := Current(c, t);
    ValidIsCombination(c, t, n);
    RankRange(x, n, t);
    if limit == 1 {
      RunUnfold(c, t, j, limit);
      RanksPrepend(x, [], Rank(x));
      assert [x] + [] == [x];
    }
  }

  /** From a valid state, the run hands out consecutive ranks up to the last
      combination, or until the consumer stops asking. */
  lemma {:induction false} RunCount(c: seq<int>, t: int, n: int, j: int, limit: nat)
    requires Valid(c, t, n) && j <= t
    ensures Counted(c, t, n, j, limit)
    decreases limit
  {
    if limit > 1 {
      var s := Next(c, t, j);
      if s.j <= t {
        NextKeepsValid(c, t, n, j);
        RunCount(s.c, t, n, s.j, limit - 1);
      }
      CountedStep(c, t, n, j, limit);
    } else {
      CountedShort(c, t, n, j, limit);
    }
  }

  /** The items have the ranks 0, 1, 2, ...: no two are the same. */
  predicate Ranked(outs: seq<seq<int>>)
  {
    RanksFrom(outs, 0)
  }

  lemma RankedDistinct(outs: seq<seq<int>>)
    requires Ranked(outs)
    ensures forall a, b :: 0 <= a < b < |outs| ==> outs[a] != outs[b]
  {
  }

  /** A list of ranked t-combinations of {0, ..., n-1} with C(n, t) items holds every
      t-combination. */
  lemma RankedComplete(outs: seq<seq<int>>, n: int, t: int)
    requires 0 <= t && Ranked(outs) && |outs| == Choose(n, t)
    requires AllCombinations(outs, n, t)
    ensures forall x :: IsCombination(x, n, t) ==> x in outs
  {
    forall x | IsCombination(x, n, t)
      ensures x in outs
    {
      RankRange(x, n, t);
      var y := outs[Rank(x)];
      RankInjective(x, y);
    }
  }

  /** Combinations(n, r) with 0 <= r <= n, for a consumer that asks for `limit` items:
      it hands out min(limit, C(n, r)) distinct r-combinations, and when the consumer
      asks for at least C(n, r) of them, every r-combination of {0, ..., n-1}. */
  lemma CombinationsComplete(n: Int32, r: Int32, limit: nat)
    requires 0 <= r <= n && r < 0x7FFF_FFFE
    ensures Enumeration(n, r, limit).Ok?
    ensures |Enumeration(n, r, limit).value.outs| == Min(limit, Choose(n, r))
    ensures forall a, b :: 0 <= a < b < |Enumeration(n, r, limit).value.outs| ==>
      Enumeration(n, r, limit).value.outs[a] != Enumeration(n, r, limit).value.outs[b]
    ensures limit >= Choose(n, r) ==>
      forall x :: IsCombination(x, n, r) ==> x in Enumeration(n, r, limit).value.outs
  {
    var outs := Enumeration(n, r, limit).value.outs;
    if r == 0 {
      assert forall x :: IsCombination(x, n, r) ==> x == [];
    } else if r == 1 {
      ChooseOne(n);
      forall x | IsCombination(x, n, r) && limit >= Choose(n, r)
        ensures x in outs
      {
        assert outs[x[0]] == x;
      }
    } else {
      var c := Initial(n, r);
      InitialState(c, r, n);
      RankOfFirst(r);
      assert Wrap32(r + 1) == r + 1 && Wrap32(r + 2) == r + 2;
      assert outs == Run(c, r, 2, limit).outs;
      RunCount(c, r, n, 2, limit);
      RankedDistinct(outs);
      if limit >= Choose(n, r) {
        RunKeepsValid(c, r, n, 2, limit);
        RankedComplete(outs, n, r);
      }
    }
  }

  // ---------------------------------------------------------------------------
  // The enumeration runs to its end

  /** The loop state of RunToEnd: the items so far are ranked t-combinations, and the
      state (c, j) is either valid and ranked next or past the last combination. */
  predicate ToEnd(c: seq<int>, t: int, n: int, j: int, outs: seq<seq<int>>)
    requires t >= 2 && |c| == t + 2
  {
    |outs| <= Choose(n, t) && Ranked(outs) && AllCombinations(outs, n, t) &&
    (j <= t ==> Valid(c, t, n) && Rank(Current(c, t)) == |outs|) &&
    (j > t ==> |outs| == Choose(n, t))
  }

  /** R2 and the step after it keep the loop state. */
  lemma ToEndStep(c: seq<int>, t: int, n: int, j: int, outs: seq<seq<int>>)
    requires t >= 2 && |c| == t + 2 && j <= t && ToEnd(c, t, n, j, outs)
    ensures ToEnd(Next(c, t, j).c, t, n, Next(c, t, j).j, outs + [Current(c, t)])
  {
    var x := Current(c, t);
    var step := Next(c, t, j);
    var longer := outs + [x];
    ValidIsCombination(c, t, n);
    RankRange(x, n, t);
    RanksAppend(outs, x);
    assert AllCombinations(longer, n, t) by {
      forall k | 0 <= k < |longer|
        ensures IsCombination(longer[k], n, t)
      {
        if k < |outs| {
          assert longer[k] == outs[k];
        }
      }
    }
    assert |longer| <= Choose(n, t);
    NextRank(c, t, n, j);
    if step.j <= t {
      NextKeepsValid(c, t, n, j);
      assert RankedNext(c, step.c, t);
    } else {
      LastRank(c, t, n);
      assert |longer| == Choose(n, t);
    }
  }

  lemma RanksAppend(outs: seq<seq<int>>, x: seq<int>)
    requires Ranked(outs) && Rank(x) == |outs|
    ensures Ranked(outs + [x])
  {
    var longer := outs + [x];
    forall k | 0 <= k < |longer|
      ensures Rank(longer[k]) == k
    {
      if k < |outs| {
        assert longer[k] == outs[k];
      }
    }
  }

  /** R1 to R6 for a consumer that reads to the end (2 <= t <= n): the loop stops by
      itself, after C(n, t) distinct combinations that are all the t-combinations of
      {0, ..., n-1}. */
  method RunToEnd(n: Int32, t: Int32) returns (outs: seq<seq<int>>)
    requires 2 <= t <= n
    ensures |outs| == Choose(n, t)
    ensures forall a, b :: 0 <= a < b < |outs| ==> outs[a] != outs[b]
    ensures forall x :: IsCombination(x, n, t) ==> x in outs
  {
    var c := Start(n, t);
    InitialState(c[..], t, n);
    RankOfFirst(t);
    var even := ValueTypeExtensions.IsEven(t);
    var j := 2;
    outs := [];
    while j <= t
      invariant c.Length == t + 2 && ToEnd(c[..], t, n, j, outs)
      decreases Choose(n, t) - |outs|
    {
      ToEndStep(c[..], t, n, j, outs);
      outs := outs + [c[1..t + 1]]; // R2
      var ok;
      j, ok := Advance(c, t, j, even);
    }
    RankedDistinct(outs);
    RankedComplete(outs, n, t);
  }
}
