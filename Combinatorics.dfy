/** Combinatorics.Combinations(n, r): W. H. Payne's revolving-door algorithm (Algorithm R
    of section 7.2.1.3 of Knuth, The Art of Computer Programming, volume 4A) over an array
    c[0 .. r+1], where c[1 .. r] is the current combination and c[r+1] = n a sentinel.
    The enumeration is lazy: `limit` is the number of combinations the consumer asks for,
    and an exception surfaces only once the consumer asks for the first one. */
module Combinatorics {
  import opened Wrappers
  import opened Integers
  import ValueTypeExtensions

  /** The elements of a combination. */
  function Elems(s: seq<int>): set<int>
  {
    set x | x in s
  }

  predicate Increasing(s: seq<int>)
  {
    forall i, k :: 0 <= i < k < |s| ==> s[i] < s[k]
  }

  /** An r-combination of {0, ..., n-1}, listed in increasing order. */
  predicate IsCombination(s: seq<int>, n: int, r: int)
  {
    |s| == r && Increasing(s) && forall i :: 0 <= i < |s| ==> 0 <= s[i] < n
  }

  /** The revolving-door property: the next combination drops exactly one element of the
      previous one and takes exactly one new element. */
  predicate RevolvingStep(a: seq<int>, b: seq<int>)
  {
    |a| == |b| && |Elems(a) - Elems(b)| == 1 && |Elems(b) - Elems(a)| == 1
  }

  /** The algorithm's state between two outputs: c[1] >= 0, c[1 .. t+1] increasing and
      the sentinel c[t+1] = n. */
  predicate Valid(c: seq<int>, t: int, n: int)
  {
    t >= 2 && |c| == t + 2 && 0 <= c[1] && c[t + 1] == n &&
    forall i, k :: 1 <= i < k <= t + 1 ==> c[i] < c[k]
  }

  /** The combination the state stands for, c[1 .. t]. */
  function Current(c: seq<int>, t: int): seq<int>
    requires 0 <= t && |c| == t + 2
  {
    c[1..t + 1]
  }

  /** A valid state stands for a t-combination of {0, ..., n-1}. */
  lemma ValidIsCombination(c: seq<int>, t: int, n: int)
    requires Valid(c, t, n)
    ensures IsCombination(Current(c, t), n, t)
  {
    var s := Current(c, t);
    forall i | 0 <= i < |s|
      ensures 0 <= s[i] < n
    {
      if i > 0 {
        assert c[1] < c[i + 1];
      }
      assert c[i + 1] < c[t + 1];
    }
  }

  /** The state R1 sets up is valid when t <= n, and stands for 0, 1, ..., t-1. */
  lemma InitialState(c: seq<int>, t: int, n: int)
    requires 2 <= t && |c| == t + 2 && c[t + 1] == n
    requires forall i :: 1 <= i <= t ==> c[i] == i - 1
    ensures t <= n ==> Valid(c, t, n)
    ensures Current(c, t) == seq(t, i => i)
  {
  }

  lemma OneOutOneIn(a: seq<int>, b: seq<int>, x: int, y: int)
    requires |a| == |b| && x in a && y !in a
    requires Elems(b) == Elems(a) - {x} + {y}
    ensures RevolvingStep(a, b)
  {
    assert Elems(a) - Elems(b) == {x};
    assert Elems(b) - Elems(a) == {y};
  }

  /** R3 for even t: c[1] moves one down. */
  lemma DecreaseFirstValid(c: seq<int>, t: int, n: int)
    requires Valid(c, t, n) && c[1] > 0
    ensures Valid(c[1 := c[1] - 1], t, n)
  {
    var d := c[1 := c[1] - 1];
    forall i, k | 1 <= i < k <= t + 1
      ensures d[i] < d[k]
    {
      assert c[i] < c[k];
    }
  }

  lemma DecreaseFirst(c: seq<int>, t: int, n: int)
    requires Valid(c, t, n) && c[1] > 0
    ensures Valid(c[1 := c[1] - 1], t, n)
    ensures RevolvingStep(Current(c, t), Current(c[1 := c[1] - 1], t))
  {
    var d := c[1 := c[1] - 1];
    DecreaseFirstValid(c, t, n);
    var a, b := Current(c, t), Current(d, t);
    assert b == a[0 := c[1] - 1];
    forall i | 0 <= i < |a|
      ensures a[i] != c[1] - 1
    {
      assert a[i] == c[i + 1];
      if i > 0 {
        assert c[1] < c[i + 1];
      }
    }
    ReplaceOne(a, 0, c[1] - 1);
    OneOutOneIn(a, b, c[1], c[1] - 1);
  }

  /** R3 for odd t: c[1] moves one up, below c[2]. */
  lemma IncreaseFirst(c: seq<int>, t: int, n: int)
    requires Valid(c, t, n) && c[1] + 1 < c[2]
    ensures Valid(c[1 := c[1] + 1], t, n)
    ensures RevolvingStep(Current(c, t), Current(c[1 := c[1] + 1], t))
  {
    var d := c[1 := c[1] + 1];
    var a, b := Current(c, t), Current(d, t);
    assert b == a[0 := c[1] + 1];
    forall i | 0 <= i < |a|
      ensures a[i] != c[1] + 1
    {
      assert a[i] == c[i + 1];
      if i > 1 {
        assert c[2] < c[i + 1];
      }
    }
    ReplaceOne(a, 0, c[1] + 1);
    OneOutOneIn(a, b, c[1], c[1] + 1);
  }

  /** R5: with c[i] = i - 1 below j, c[j] moves one up and c[j-1] takes its place. */
  lemma IncreaseAt(c: seq<int>, t: int, n: int, j: int)
    requires Valid(c, t, n) && 2 <= j <= t
    requires forall k :: 1 <= k <= j - 1 ==> c[k] == k - 1
    requires c[j] + 1 < c[j + 1]
    ensures Valid(c[j - 1 := c[j]][j := c[j] + 1], t, n)
    ensures RevolvingStep(Current(c, t), Current(c[j - 1 := c[j]][j := c[j] + 1], t))
  {
    IncreaseAtValid(c, t, n, j);
    var d := c[j - 1 := c[j]][j := c[j] + 1];
    var a, b := Current(c, t), Current(d, t);
    assert b == a[j - 2 := a[j - 1]][j - 1 := a[j - 1] + 1];
    forall i | 0 <= i < |a|
      ensures a[i] != c[j] + 1
    {
      assert a[i] == c[i + 1];
      if i + 1 > j + 1 {
        assert c[j + 1] < c[i + 1];
      } else if i + 1 < j {
        assert c[i + 1] < c[j];
      }
    }
    ValidIncreasing(c, t, n);
    MoveUp(a, j - 2, a[j - 1] + 1);
    OneOutOneIn(a, b, a[j - 2], a[j - 1] + 1);
  }

  lemma IncreaseAtValid(c: seq<int>, t: int, n: int, j: int)
    requires Valid(c, t, n) && 2 <= j <= t
    requires c[j] + 1 < c[j + 1]
    ensures Valid(c[j - 1 := c[j]][j := c[j] + 1], t, n)
  {
    var d := c[j - 1 := c[j]][j := c[j] + 1];
    forall i, k | 1 <= i < k <= t + 1
      ensures d[i] < d[k]
    {
      if i == j - 1 && k > j + 1 {
        assert c[j + 1] < c[k];
      } else if i < j - 1 && k >= j - 1 {
        assert c[i] < c[j - 1] < c[j];
      }
    }
    assert 0 <= c[1] <= d[1];
  }

  /** R4: with c[i] = i - 1 below j - 1 and c[j] = c[j-1] + 1 >= j, c[j] moves down to
      c[j-1] and c[j-1] to j - 2. */
  lemma DecreaseAt(c: seq<int>, t: int, n: int, j: int)
    requires Valid(c, t, n) && 2 <= j <= t
    requires forall k :: 1 <= k <= j - 2 ==> c[k] == k - 1
    requires c[j] == c[j - 1] + 1 && c[j] >= j
    ensures Valid(c[j := c[j - 1]][j - 1 := j - 2], t, n)
    ensures RevolvingStep(Current(c, t), Current(c[j := c[j - 1]][j - 1 := j - 2], t))
  {
    DecreaseAtValid(c, t, n, j);
    var d := c[j := c[j - 1]][j - 1 := j - 2];
    var a, b := Current(c, t), Current(d, t);
    assert b == a[j - 1 := a[j - 2]][j - 2 := j - 2];
    forall i | 0 <= i < |a|
      ensures a[i] != j - 2
    {
      assert a[i] == c[i + 1];
      if i + 1 < j - 1 {
        assert c[i + 1] == i;
      } else if i + 1 > j - 1 {
        assert c[j - 1] < c[i + 1];
      }
    }
    ValidIncreasing(c, t, n);
    MoveDown(a, j - 2, j - 2);
    OneOutOneIn(a, b, a[j - 1], j - 2);
  }

  lemma DecreaseAtValid(c: seq<int>, t: int, n: int, j: int)
    requires Valid(c, t, n) && 2 <= j <= t
    requires forall k :: 1 <= k <= j - 2 ==> c[k] == k - 1
    requires c[j] == c[j - 1] + 1 && c[j] >= j
    ensures Valid(c[j := c[j - 1]][j - 1 := j - 2], t, n)
  {
    var d := c[j := c[j - 1]][j - 1 := j - 2];
    forall i, k | 1 <= i < k <= t + 1
      ensures d[i] < d[k]
    {
      if i < j - 1 && k >= j - 1 {
        assert d[i] == i - 1;
      } else if i == j && k > j {
        assert c[j - 1] < c[j] < c[k];
      } else if i == j - 1 && k > j {
        assert c[j - 1] < c[k];
      }
    }
    if j > 2 {
      assert d[1] == c[1] == 0;
    }
  }

  /** The combination of a valid state is increasing. */
  lemma ValidIncreasing(c: seq<int>, t: int, n: int)
    requires Valid(c, t, n)
    ensures Increasing(Current(c, t))
  {
    var a := Current(c, t);
    forall i, k | 0 <= i < k < |a|
      ensures a[i] < a[k]
    {
      assert a[i] == c[i + 1] && a[k] == c[k + 1];
    }
  }

  /** Replacing one element of a sequence of distinct elements by a new value. */
  lemma ReplaceOne(a: seq<int>, p: int, v: int)
    requires 0 <= p < |a| && Increasing(a) && v !in a
    ensures Elems(a[p := v]) == Elems(a) - {a[p]} + {v}
  {
    var b := a[p := v];
    forall x | x in Elems(a) - {a[p]} + {v}
      ensures x in Elems(b)
    {
      if x != v {
        var i :| 0 <= i < |a| && a[i] == x;
        assert b[i] == x;
      } else {
        assert b[p] == v;
      }
    }
  }

  /** Position p takes the element at p + 1, which takes the new value v. */
  lemma MoveUp(a: seq<int>, p: int, v: int)
    requires 0 <= p && p + 1 < |a| && Increasing(a) && v !in a
    ensures Elems(a[p := a[p + 1]][p + 1 := v]) == Elems(a) - {a[p]} + {v}
  {
    var b := a[p := a[p + 1]][p + 1 := v];
    forall x | x in Elems(a) - {a[p]} + {v}
      ensures x in Elems(b)
    {
      if x == v {
        assert b[p + 1] == v;
      } else if x == a[p + 1] {
        assert b[p] == x;
      } else {
        var i :| 0 <= i < |a| && a[i] == x;
        assert b[i] == x;
      }
    }
    forall x | x in Elems(b)
      ensures x in Elems(a) - {a[p]} + {v}
    {
      var i :| 0 <= i < |b| && b[i] == x;
      if i != p && i != p + 1 {
        assert a[i] == x && a[i] != a[p];
      }
    }
  }

  /** Position p + 1 takes the element at p, which takes the new value v. */
  lemma MoveDown(a: seq<int>, p: int, v: int)
    requires 0 <= p && p + 1 < |a| && Increasing(a) && v !in a
    ensures Elems(a[p + 1 := a[p]][p := v]) == Elems(a) - {a[p + 1]} + {v}
  {
    var b := a[p + 1 := a[p]][p := v];
    forall x | x in Elems(a) - {a[p + 1]} + {v}
      ensures x in Elems(b)
    {
      if x == v {
        assert b[p] == v;
      } else if x == a[p] {
        assert b[p + 1] == x;
      } else {
        var i :| 0 <= i < |a| && a[i] == x;
        assert b[i] == x;
      }
    }
    forall x | x in Elems(b)
      ensures x in Elems(a) - {a[p + 1]} + {v}
    {
      var i :| 0 <= i < |b| && b[i] == x;
      if i != p && i != p + 1 {
        assert a[i] == x && a[i] != a[p + 1];
      }
    }
  }

  /** The state after one R2 output: the array, the loop variable j (the outer loop goes
      on while j <= t) and whether every Debug.Assert met on the way held. */
  datatype Step = Step(c: seq<int>, j: int, asserted: bool)

  /** What the consumer has seen: the combinations handed out and whether every
      Debug.Assert held. */
  datatype Trace = Trace(outs: seq<seq<int>>, asserted: bool)

  /** The inner loop of the even branch from position j: R5 at j, then R4 at j + 1. */
  function ScanEven(c: seq<int>, t: int, j: int): (s: Step)
    requires t >= 2 && |c| == t + 2 && 2 <= j
    ensures |s.c| == |c|
    decreases t + 2 - j
  {
    if j > t then Step(c, j, true)
    else
      var a1 := c[j - 1] == j - 2;
      if c[j] + 1 < c[j + 1] then Step(c[j - 1 := c[j]][j := c[j] + 1], j, a1)
      else
        var a2 := c[j + 1] == c[j] + 1;
        if c[j + 1] >= j + 1 then Step(c[j + 1 := c[j]][j := j - 1], j + 1, a1 && a2)
        else
          var rest := ScanEven(c, t, j + 2);
          Step(rest.c, rest.j, a1 && a2 && rest.asserted)
  }

  /** The inner loop of the odd branch from an even position j: R4 at j, then R5 at
      j + 1 (which stays within the array because t is odd). */
  function ScanOdd(c: seq<int>, t: int, j: int): (s: Step)
    requires t >= 2 && |c| == t + 2 && 2 <= j && j % 2 == 0 && t % 2 == 1
    ensures |s.c| == |c|
    decreases t + 2 - j
  {
    if j > t then Step(c, j, true)
    else
      var a1 := c[j] == c[j - 1] + 1;
      if c[j] >= j then Step(c[j := c[j - 1]][j - 1 := j - 2], j, a1)
      else
        var a2 := c[j] == j - 1;
        if c[j + 1] + 1 < c[j + 2] then Step(c[j := c[j + 1]][j + 1 := c[j + 1] + 1], j + 1, a1 && a2)
        else
          var rest := ScanOdd(c, t, j + 2);
          Step(rest.c, rest.j, a1 && a2 && rest.asserted)
  }

  /** One pass of the even branch's outer loop after R2: R3, else the inner loop. */
  function NextEven(c: seq<int>, t: int, j: int): (s: Step)
    requires t >= 2 && |c| == t + 2
    ensures |s.c| == |c|
  {
    if c[1] > 0 then Step(c[1 := c[1] - 1], j, true) else ScanEven(c, t, 2)
  }

  /** One pass of the odd branch's outer loop after R2: R3, else the inner loop. */
  function NextOdd(c: seq<int>, t: int, j: int): (s: Step)
    requires t >= 2 && |c| == t + 2 && t % 2 == 1
    ensures |s.c| == |c|
  {
    if c[1] + 1 < c[2] then Step(c[1 := c[1] + 1], j, true) else ScanOdd(c, t, 2)
  }

  function Next(c: seq<int>, t: int, j: int): (s: Step)
    requires t >= 2 && |c| == t + 2
    ensures |s.c| == |c|
  {
    if t % 2 == 0 then NextEven(c, t, j) else NextOdd(c, t, j)
  }

  /** The outputs of the outer loop from state (c, j) when the consumer asks for `limit`
      more items: each request outputs c[1 .. t] (R2), and the next request first
      advances the state. */
  function Run(c: seq<int>, t: int, j: int, limit: nat): Trace
    requires t >= 2 && |c| == t + 2
    decreases limit
  {
    if j > t || limit == 0 then Trace([], true)
    else if limit == 1 then Trace([Current(c, t)], true)
    else
      var s := Next(c, t, j);
      var rest := Run(s.c, t, s.j, limit - 1);
      Trace([Current(c, t)] + rest.outs, s.asserted && rest.asserted)
  }

  /** The array after R1: c[i] = i - 1 for 1 <= i <= t and the sentinel c[t+1] = n. */
  function Initial(n: int, t: nat): seq<int>
  {
    seq(t + 2, i => if 1 <= i <= t then i - 1 else if i == t + 1 then n else 0)
  }

  /** Combinations(n, r) as seen by a consumer that asks for `limit` items. Nothing runs
      before the first request. An array length t + 1 + 1 that wraps to a negative value
      raises OverflowException; length 0 (r = -2) makes c[t + 1] raise
      IndexOutOfRangeException; r = -1 outputs nothing. */
  function Enumeration(n: Int32, r: Int32, limit: nat): (res: Result<Trace>)
    ensures res.Err? <==> limit > 0 && (r < -1 || r >= 0x7FFF_FFFE)
    ensures res.Err? ==> res.error == (if r == -2 then IndexOutOfRange else Overflow)
    ensures res.Ok? ==> |res.value.outs| <= limit
  {
    if r == 0 then Ok(Trace(if limit == 0 then [] else [[]], true))
    else if r == 1 then Ok(Trace(seq(Min(limit, if n < 0 then 0 else n), i => [i]), true))
    else
      var size := Wrap32(Wrap32(r + 1) + 1);
      if limit == 0 then Ok(Trace([], true))
      else if size < 0 then Err(Overflow)
      else if size == 0 then Err(IndexOutOfRange)
      else if r < 2 then Ok(Trace([], true))
      else RunBound(Initial(n, r), r, 2, limit); Ok(Run(Initial(n, r), r, 2, limit))
  }

  function Min(a: int, b: int): int
  {
    if a < b then a else b
  }

  lemma {:induction false} RunBound(c: seq<int>, t: int, j: int, limit: nat)
    requires t >= 2 && |c| == t + 2
    ensures |Run(c, t, j, limit).outs| <= limit
    decreases limit
  {
    if j <= t && limit > 1 {
      var s := Next(c, t, j);
      RunBound(s.c, t, s.j, limit - 1);
    }
  }

  // ---------------------------------------------------------------------------
  // What the algorithm guarantees while t <= n

  lemma {:induction false} ScanEvenKeepsValid(c: seq<int>, t: int, n: int, j: int)
    requires Valid(c, t, n) && 2 <= j <= t + 2
    requires forall k :: 1 <= k <= j - 1 ==> c[k] == k - 1
    ensures ScanEven(c, t, j).asserted
    ensures ScanEven(c, t, j).j <= t ==>
      Valid(ScanEven(c, t, j).c, t, n) && RevolvingStep(Current(c, t), Current(ScanEven(c, t, j).c, t))
    decreases t + 2 - j
  {
    if j <= t && c[j] + 1 < c[j + 1] {
      IncreaseAt(c, t, n, j);
    } else if j <= t {
      assert c[j + 1] == c[j] + 1;
      if c[j + 1] >= j + 1 {
        if j + 1 <= t {
          DecreaseAt(c, t, n, j + 1);
        }
      } else {
        assert c[j - 1] < c[j];
        ScanEvenKeepsValid(c, t, n, j + 2);
      }
    }
  }

  /** What an inner-loop pass from a valid state guarantees: every Debug.Assert held and,
      when the outer loop goes on, the new state is valid and one revolving-door step on. */
  predicate StepKeepsValid(c: seq<int>, t: int, n: int, s: Step)
    requires t >= 2 && |c| == t + 2
  {
    s.asserted && (s.j <= t ==> Valid(s.c, t, n) && RevolvingStep(Current(c, t), Current(s.c, t)))
  }

  lemma {:induction false} ScanOddKeepsValid(c: seq<int>, t: int, n: int, j: int)
    requires Valid(c, t, n) && 2 <= j <= t + 1 && j % 2 == 0 && t % 2 == 1
    requires forall k :: 1 <= k <= j - 2 ==> c[k] == k - 1
    requires j <= t ==> c[j] == c[j - 1] + 1
    ensures StepKeepsValid(c, t, n, ScanOdd(c, t, j))
    decreases t + 2 - j
  {
    if j <= t {
      if c[j] >= j {
        ScanOddDecrease(c, t, n, j);
      } else {
        BelowDiagonal(c, t, n, j);
        if c[j + 1] + 1 < c[j + 2] {
          ScanOddIncrease(c, t, n, j);
        } else {
          assert c[j + 1] < c[j + 2];
          ScanOddKeepsValid(c, t, n, j + 2);
          ScanOddSkip(c, t, n, j);
        }
      }
    }
  }

  /** R5 at j in the odd branch. */
  lemma ScanOddDecrease(c: seq<int>, t: int, n: int, j: int)
    requires Valid(c, t, n) && 2 <= j <= t && j % 2 == 0 && t % 2 == 1
    requires forall k :: 1 <= k <= j - 2 ==> c[k] == k - 1
    requires c[j] == c[j - 1] + 1 && c[j] >= j
    ensures StepKeepsValid(c, t, n, ScanOdd(c, t, j))
  {
    assert ScanOdd(c, t, j) == Step(c[j := c[j - 1]][j - 1 := j - 2], j, true);
    DecreaseAt(c, t, n, j);
  }

  /** R4 at j + 1 in the odd branch. */
  lemma ScanOddIncrease(c: seq<int>, t: int, n: int, j: int)
    requires Valid(c, t, n) && 2 <= j <= t && j % 2 == 0 && t % 2 == 1
    requires forall k :: 1 <= k <= j ==> c[k] == k - 1
    requires c[j] == c[j - 1] + 1 && c[j] < j && c[j + 1] + 1 < c[j + 2]
    ensures StepKeepsValid(c, t, n, ScanOdd(c, t, j))
  {
    var k := j + 1;
    var d := c[k - 1 := c[k]][k := c[k] + 1];
    assert ScanOdd(c, t, j) == Step(d, k, true);
    IncreaseAt(c, t, n, k);
    assert Valid(d, t, n) && RevolvingStep(Current(c, t), Current(d, t));
  }

  /** Neither step applies at j: the odd branch goes on from j + 2. */
  lemma ScanOddSkip(c: seq<int>, t: int, n: int, j: int)
    requires t >= 2 && |c| == t + 2 && 2 <= j <= t && j % 2 == 0 && t % 2 == 1
    requires c[j] == c[j - 1] + 1 && c[j] == j - 1 && c[j + 1] + 1 >= c[j + 2]
    requires StepKeepsValid(c, t, n, ScanOdd(c, t, j + 2))
    ensures StepKeepsValid(c, t, n, ScanOdd(c, t, j))
  {
    var rest := ScanOdd(c, t, j + 2);
    assert ScanOdd(c, t, j) == Step(rest.c, rest.j, rest.asserted) == rest;
  }

  /** When R4 fails at j, c[j-1] and c[j] sit at their least possible values. */
  lemma BelowDiagonal(c: seq<int>, t: int, n: int, j: int)
    requires Valid(c, t, n) && 2 <= j <= t
    requires forall k :: 1 <= k <= j - 2 ==> c[k] == k - 1
    requires c[j] == c[j - 1] + 1 && c[j] < j
    ensures c[j - 1] == j - 2 && c[j] == j - 1
    ensures forall k :: 1 <= k <= j ==> c[k] == k - 1
  {
    if j > 2 {
      assert c[j - 2] < c[j - 1];
    }
  }

  /** Between two outputs the state stays valid, the next output differs from the previous
      one by one element out and one in, and every Debug.Assert holds. */
  lemma NextKeepsValid(c: seq<int>, t: int, n: int, j: int)
    requires Valid(c, t, n) && j <= t
    ensures Next(c, t, j).asserted
    ensures Next(c, t, j).j <= t ==>
      Valid(Next(c, t, j).c, t, n) && RevolvingStep(Current(c, t), Current(Next(c, t, j).c, t))
  {
    if t % 2 == 0 {
      if c[1] > 0 {
        DecreaseFirst(c, t, n);
      } else {
        ScanEvenKeepsValid(c, t, n, 2);
      }
    } else {
      if c[1] + 1 < c[2] {
        IncreaseFirst(c, t, n);
      } else {
        ScanOddKeepsValid(c, t, n, 2);
        assert StepKeepsValid(c, t, n, ScanOdd(c, t, 2));
      }
    }
  }

  /** Every output is a t-combination of {0, ..., n-1}. */
  predicate AllCombinations(outs: seq<seq<int>>, n: int, t: int)
  {
    forall k :: 0 <= k < |outs| ==> IsCombination(outs[k], n, t)
  }

  /** Each output follows its predecessor by a revolving-door step. */
  predicate Revolving(outs: seq<seq<int>>)
  {
    forall k :: 0 < k < |outs| ==> RevolvingStep(outs[k - 1], outs[k])
  }

  lemma PrependRevolving(x: seq<int>, rest: seq<seq<int>>, n: int, t: int)
    requires IsCombination(x, n, t) && AllCombinations(rest, n, t) && Revolving(rest)
    requires |rest| > 0 ==> RevolvingStep(x, rest[0])
    ensures AllCombinations([x] + rest, n, t) && Revolving([x] + rest)
  {
    var outs := [x] + rest;
    forall k | 0 < k < |outs|
      ensures RevolvingStep(outs[k - 1], outs[k])
    {
      if k > 1 {
        assert outs[k - 1] == rest[k - 2] && outs[k] == rest[k - 1];
      }
    }
  }

  /** From a valid state every output is a t-combination of {0, ..., n-1}, each follows
      its predecessor by a revolving-door step, and every Debug.Assert holds. */
  lemma {:induction false} RunKeepsValid(c: seq<int>, t: int, n: int, j: int, limit: nat)
    requires Valid(c, t, n)
    ensures RunOk(c, t, n, j, limit)
    decreases limit
  {
    ValidIsCombination(c, t, n);
    if j <= t && limit > 1 {
      var s := Next(c, t, j);
      NextKeepsValid(c, t, n, j);
      if s.j <= t {
        RunKeepsValid(s.c, t, n, s.j, limit - 1);
      }
      RunPrepend(c, t, n, j, limit);
    }
  }

  /** Every output of Run is a t-combination, each follows its predecessor by a
      revolving-door step, the first is the current state and every Debug.Assert holds. */
  predicate RunOk(c: seq<int>, t: int, n: int, j: int, limit: nat)
    requires t >= 2 && |c| == t + 2
  {
    var r := Run(c, t, j, limit);
    r.asserted && AllCombinations(r.outs, n, t) && Revolving(r.outs) &&
    (|r.outs| > 0 ==> r.outs[0] == Current(c, t))
  }

  /** The run from (c, j) is its first output followed by the run after one step. */
  lemma RunPrepend(c: seq<int>, t: int, n: int, j: int, limit: nat)
    requires t >= 2 && |c| == t + 2 && j <= t && limit > 1
    requires IsCombination(Current(c, t), n, t) && Next(c, t, j).asserted
    requires Next(c, t, j).j <= t ==>
      RunOk(Next(c, t, j).c, t, n, Next(c, t, j).j, limit - 1) &&
      RevolvingStep(Current(c, t), Current(Next(c, t, j).c, t))
    ensures RunOk(c, t, n, j, limit)
  {
    var s := Next(c, t, j);
    var rest := Run(s.c, t, s.j, limit - 1);
    if s.j > t {
      assert rest == Trace([], true);
    }
    PrependRevolving(Current(c, t), rest.outs, n, t);
  }

  // ---------------------------------------------------------------------------
  // Combinations(n, r) as a whole

  /** For 0 <= r <= n every item handed out is an r-combination of {0, ..., n-1}, the
      first is 0, 1, ..., r-1, each differs from its predecessor by one element out and
      one in, and every Debug.Assert holds. */
  lemma CombinationsAreRevolving(n: Int32, r: Int32, limit: nat)
    requires 0 <= r <= n && r < 0x7FFF_FFFE
    ensures Enumeration(n, r, limit).Ok?
    ensures Enumeration(n, r, limit).value.asserted
    ensures AllCombinations(Enumeration(n, r, limit).value.outs, n, r)
    ensures Revolving(Enumeration(n, r, limit).value.outs)
    ensures limit > 0 ==>
      |Enumeration(n, r, limit).value.outs| > 0 && Enumeration(n, r, limit).value.outs[0] == seq(r, i => i)
  {
    var outs := Enumeration(n, r, limit).value.outs;
    if r == 0 {
      assert limit > 0 ==> outs == [[]];
    } else if r == 1 {
      forall k | 0 < k < |outs|
        ensures RevolvingStep(outs[k - 1], outs[k])
      {
        assert outs[k - 1] == [k - 1] && outs[k] == [k];
        OneOutOneIn(outs[k - 1], outs[k], k - 1, k);
      }
    } else {
      var c := Initial(n, r);
      InitialState(c, r, n);
      RunKeepsValid(c, r, n, 2, limit);
    }
  }

  /** With r >= 2 and fewer items than chosen (n < r), the first request hands out
      0, 1, ..., r-1, which is not an r-combination of {0, ..., n-1}, and the next request
      ends the enumeration. */
  lemma FewerItemsThanChosen(n: Int32, r: Int32, limit: nat)
    requires 2 <= r < 0x7FFF_FFFE && n < r && limit > 0
    ensures Enumeration(n, r, limit) == Ok(Trace([seq(r, i => i)], Enumeration(n, r, limit).value.asserted))
    ensures !IsCombination(seq(r, i => i), n, r)
  {
    var c := Initial(n, r);
    InitialState(c, r, n);
    assert seq(r, i => i)[r - 1] == r - 1;
    assert Wrap32(r + 1) == r + 1 && Wrap32(r + 2) == r + 2;
    assert Enumeration(n, r, limit) == Ok(Run(c, r, 2, limit));
    RunUnfold(c, r, 2, limit);
    if limit > 1 {
      if r % 2 == 0 {
        ScanEvenStops(n, r, 2);
      } else {
        ScanOddStops(n, r, 2);
      }
      assert c[1] == 0 && c[2] == 1;
      var s := Next(c, r, 2);
      assert s.j > r;
      assert Run(s.c, r, s.j, limit - 1).outs == [];
      assert [Current(c, r)] + [] == [seq(r, i => i)];
    }
  }

  lemma {:induction false} ScanEvenStops(n: int, t: int, j: int)
    requires 2 <= t && n < t && 2 <= j <= t + 2 && j % 2 == 0
    ensures ScanEven(Initial(n, t), t, j).j > t
    decreases t + 2 - j
  {
    if j <= t {
      ScanEvenStops(n, t, j + 2);
    }
  }

  lemma {:induction false} ScanOddStops(n: int, t: int, j: int)
    requires 2 <= t && n < t && 2 <= j <= t + 1 && j % 2 == 0 && t % 2 == 1
    ensures ScanOdd(Initial(n, t), t, j).j > t
    decreases t + 2 - j
  {
    if j <= t {
      ScanOddStops(n, t, j + 2);
    }
  }

  /** Combinations(n, r) with a guard that ends the enumeration at once when r >= 2 and
      n < r, as there are no r-combinations of fewer than r items. */
  function GuardedEnumeration(n: Int32, r: Int32, limit: nat): (res: Result<Trace>)
    ensures 2 <= r && n < r ==> res == Ok(Trace([], true))
    ensures !(2 <= r && n < r) ==> res == Enumeration(n, r, limit)
  {
    if 2 <= r && n < r then Ok(Trace([], true)) else Enumeration(n, r, limit)
  }

  /** With the guard, for every n and every 0 <= r < 2^31 - 2, every item handed out is an
      r-combination of {0, ..., n-1}. */
  lemma GuardedOnlyCombinations(n: Int32, r: Int32, limit: nat)
    requires 0 <= r < 0x7FFF_FFFE
    ensures GuardedEnumeration(n, r, limit).Ok?
    ensures GuardedEnumeration(n, r, limit).value.asserted
    ensures AllCombinations(GuardedEnumeration(n, r, limit).value.outs, n, r)
    ensures Revolving(GuardedEnumeration(n, r, limit).value.outs)
  {
    if r <= n {
      CombinationsAreRevolving(n, r, limit);
    } else if r == 0 {
      assert limit > 0 ==> Enumeration(n, r, limit).value.outs == [[]];
    } else if r == 1 {
      assert Enumeration(n, r, limit).value.outs == [];
    }
  }

  /** Combinations(4, 2) in full: 01, 12, 02, 23, 13, 03. The order is the revolving-door
      order, not lexicographic order (12 comes before 02). */
  /** The states Combinations(4, 2) passes through: [0, 0, 1, 4] after R1, then one
      revolving-door step per output until j passes t. */
  lemma FourChooseTwoStates()
    ensures Initial(4, 2) == [0, 0, 1, 4]
    ensures Next([0, 0, 1, 4], 2, 2) == Step([0, 1, 2, 4], 2, true)
    ensures Next([0, 1, 2, 4], 2, 2) == Step([0, 0, 2, 4], 2, true)
    ensures Next([0, 0, 2, 4], 2, 2) == Step([0, 2, 3, 4], 2, true)
    ensures Next([0, 2, 3, 4], 2, 2) == Step([0, 1, 3, 4], 2, true)
    ensures Next([0, 1, 3, 4], 2, 2) == Step([0, 0, 3, 4], 2, true)
    ensures Next([0, 0, 3, 4], 2, 2) == Step([0, 0, 1, 3], 3, true)
  {
    assert Initial(4, 2) == [0, 0, 1, 4];
  }

  lemma FourChooseTwo()
    ensures Enumeration(4, 2, 7) == Ok(Trace([[0, 1], [1, 2], [0, 2], [2, 3], [1, 3], [0, 3]], true))
  {
    FourChooseTwoStates();
    var c0, c1, c2, c3, c4, c5 := [0, 0, 1, 4], [0, 1, 2, 4], [0, 0, 2, 4], [0, 2, 3, 4], [0, 1, 3, 4], [0, 0, 3, 4];
    assert Current(c0, 2) == [0, 1] && Current(c1, 2) == [1, 2] && Current(c2, 2) == [0, 2];
    assert Current(c3, 2) == [2, 3] && Current(c4, 2) == [1, 3] && Current(c5, 2) == [0, 3];
    assert Run([0, 0, 1, 3], 2, 3, 1) == Trace([], true);
    assert Run(c5, 2, 2, 2) == Trace([[0, 3]], true);
    assert Run(c4, 2, 2, 3) == Trace([[1, 3], [0, 3]], true);
    assert Run(c3, 2, 2, 4) == Trace([[2, 3], [1, 3], [0, 3]], true);
    assert Run(c2, 2, 2, 5) == Trace([[0, 2], [2, 3], [1, 3], [0, 3]], true);
    assert Run(c1, 2, 2, 6) == Trace([[1, 2], [0, 2], [2, 3], [1, 3], [0, 3]], true);
    assert Run(c0, 2, 2, 7) == Trace([[0, 1], [1, 2], [0, 2], [2, 3], [1, 3], [0, 3]], true);
    assert Wrap32(2 + 1) == 3 && Wrap32(3 + 1) == 4;
  }

  // ---------------------------------------------------------------------------
  // The iterator over the array

  /** The even branch's step after R2, on the array. */
  method AdvanceEven(c: array<int>, t: int, j0: int) returns (j: int, asserted: bool)
    requires t >= 2 && c.Length == t + 2
    modifies c
    ensures Step(c[..], j, asserted) == NextEven(old(c[..]), t, j0)
  {
    if c[1] > 0 {
      c[1] := c[1] - 1; // R3
      return j0, true;
    }
    ghost var c0 := c[..];
    j, asserted := 2, true;
    while j <= t
      invariant 2 <= j <= t + 2 && c[..] == c0
      invariant ScanEven(c0, t, 2) == Step(ScanEven(c0, t, j).c, ScanEven(c0, t, j).j, asserted && ScanEven(c0, t, j).asserted)
      decreases t + 2 - j
    {
      // R5
      asserted := asserted && c[j - 1] == j - 2;
      if c[j] + 1 < c[j + 1] {
        c[j - 1] := c[j];
        c[j] := c[j] + 1;
        return;
      }
      j := j + 1;
      // R4
      asserted := asserted && c[j] == c[j - 1] + 1;
      if c[j] >= j {
        c[j] := c[j - 1];
        c[j - 1] := j - 2;
        return;
      }
      j := j + 1;
    }
  }

  /** The odd branch's step after R2, on the array. */
  method AdvanceOdd(c: array<int>, t: int, j0: int) returns (j: int, asserted: bool)
    requires t >= 2 && c.Length == t + 2 && t % 2 == 1
    modifies c
    ensures Step(c[..], j, asserted) == NextOdd(old(c[..]), t, j0)
  {
    if c[1] + 1 < c[2] {
      c[1] := c[1] + 1; // R3
      return j0, true;
    }
    ghost var c0 := c[..];
    j, asserted := 2, true;
    while j <= t
      invariant 2 <= j <= t + 1 && j % 2 == 0 && c[..] == c0
      invariant ScanOdd(c0, t, 2) == Step(ScanOdd(c0, t, j).c, ScanOdd(c0, t, j).j, asserted && ScanOdd(c0, t, j).asserted)
      decreases t + 2 - j
    {
      // R4
      asserted := asserted && c[j] == c[j - 1] + 1;
      if c[j] >= j {
        c[j] := c[j - 1];
        c[j - 1] := j - 2;
        return;
      }
      j := j + 1;
      // R5
      asserted := asserted && c[j - 1] == j - 2;
      if c[j] + 1 < c[j + 1] {
        c[j - 1] := c[j];
        c[j] := c[j] + 1;
        return;
      }
      j := j + 1;
    }
  }

  /** R1: the array c[0 .. t+1] with c[i] = i - 1 for 1 <= i <= t and c[t+1] = n. */
  method Start(n: Int32, t: nat) returns (c: array<int>)
    ensures fresh(c) && c[..] == Initial(n, t)
  {
    c := new int[t + 2](_ => 0);
    for i := 1 to t + 1
      invariant forall k :: 0 <= k < c.Length ==> c[k] == (if 1 <= k < i then k - 1 else 0)
    {
      c[i] := i - 1;
    }
    c[t + 1] := n;
  }

  /** One more request of the outer loop: output the current combination and, unless it
      was the last one asked for, advance. */
  lemma RunUnfold(c: seq<int>, t: int, j: int, limit: nat)
    requires t >= 2 && |c| == t + 2 && j <= t && limit > 0
    ensures limit == 1 ==> Run(c, t, j, limit) == Trace([Current(c, t)], true)
    ensures limit > 1 ==>
      Run(c, t, j, limit) == Trace([Current(c, t)] + Run(Next(c, t, j).c, t, Next(c, t, j).j, limit - 1).outs,
            Next(c, t, j).asserted && Run(Next(c, t, j).c, t, Next(c, t, j).j, limit - 1).asserted)
  {
  }

  /** The items already handed out, followed by the rest of the run. */
  function Then(outs: seq<seq<int>>, asserted: bool, rest: Trace): Trace
  {
    Trace(outs + rest.outs, asserted && rest.asserted)
  }

  lemma ThenNothing(rest: Trace)
    ensures Then([], true, rest) == rest
  {
    assert [] + rest.outs == rest.outs;
  }

  /** One more output moves the first item of the remaining run to the outputs so far. */
  lemma ThenStep(outs: seq<seq<int>>, asserted: bool, c: seq<int>, t: int, j: int, limit: nat)
    requires t >= 2 && |c| == t + 2 && j <= t && limit > 0
    ensures limit == 1 ==> Then(outs, asserted, Run(c, t, j, limit)) == Trace(outs + [Current(c, t)], asserted)
    ensures limit > 1 ==> (Then(outs, asserted, Run(c, t, j, limit)) ==
      Then(outs + [Current(c, t)], asserted && Next(c, t, j).asserted, Run(Next(c, t, j).c, t, Next(c, t, j).j, limit - 1)))
  {
    RunUnfold(c, t, j, limit);
    var x := Current(c, t);
    if limit > 1 {
      var rest := Run(Next(c, t, j).c, t, Next(c, t, j).j, limit - 1);
      assert outs + ([x] + rest.outs) == outs + [x] + rest.outs;
    }
  }

  /** The step after R2 of the branch that t's parity selects. */
  method Advance(c: array<int>, t: int, j0: int, even: bool) returns (j: int, asserted: bool)
    requires t >= 2 && c.Length == t + 2 && (even <==> t % 2 == 0)
    modifies c
    ensures Step(c[..], j, asserted) == Next(old(c[..]), t, j0)
  {
    if even {
      j, asserted := AdvanceEven(c, t, j0);
    } else {
      j, asserted := AdvanceOdd(c, t, j0);
    }
  }

  /** R2 and, when the consumer asks for more, the step to the next state. */
  method Output(c: array<int>, t: int, j0: int, even: bool, outs0: seq<seq<int>>, asserted0: bool, rest: nat)
    returns (j: int, outs: seq<seq<int>>, asserted: bool)
    requires t >= 2 && c.Length == t + 2 && (even <==> t % 2 == 0) && j0 <= t && rest > 0
    modifies c
    ensures |outs| == |outs0| + 1
    ensures Then(outs0, asserted0, Run(old(c[..]), t, j0, rest)) == Then(outs, asserted, Run(c[..], t, j, rest - 1))
  {
    ThenStep(outs0, asserted0, c[..], t, j0, rest);
    var current := c[1..t + 1]; // R2
    j, asserted := j0, asserted0;
    if rest > 1 {
      var ok;
      j, ok := Advance(c, t, j0, even);
      asserted := asserted && ok;
    }
    outs := outs0 + [current];
  }

  /** R1, then R2 and the steps after it for as long as the consumer asks. */
  method RevolvingDoor(n: Int32, t: Int32, limit: nat) returns (trace: Trace)
    requires 2 <= t
    ensures trace == Run(Initial(n, t), t, 2, limit)
  {
    var c := Start(n, t);
    var even := ValueTypeExtensions.IsEven(t);
    var j := 2;
    var outs: seq<seq<int>> := [];
    var asserted := true;
    ghost var whole := Run(c[..], t, j, limit);
    ThenNothing(whole);
    while j <= t && |outs| < limit
      invariant c.Length == t + 2 && |outs| <= limit
      invariant whole == Then(outs, asserted, Run(c[..], t, j, limit - |outs|))
      decreases limit - |outs|
    {
      j, outs, asserted := Output(c, t, j, even, outs, asserted, limit - |outs|);
    }
    trace := Trace(outs, asserted);
  }

  /** Combinations(n, r) for a consumer that asks for `limit` items. */
  method Combinations(n: Int32, r: Int32, limit: nat) returns (res: Result<Trace>)
    ensures res == Enumeration(n, r, limit)
  {
    if r == 0 {
      return Ok(Trace(if limit == 0 then [] else [[]], true));
    }
    if r == 1 {
      var outs: seq<seq<int>> := [];
      var i := 0;
      while i < n && |outs| < limit
        invariant 0 <= i && (i <= n || i == 0) && i <= limit && outs == seq(i, k => [k])
      {
        outs := outs + [[i]];
        i := i + 1;
      }
      return Ok(Trace(outs, true));
    }
    if limit == 0 {
      return Ok(Trace([], true));
    }
    var size := Wrap32(Wrap32(r + 1) + 1);
    if size < 0 {
      return Err(Overflow);
    }
    if size == 0 {
      return Err(IndexOutOfRange);
    }
    if r < 2 {
      // r = -1: a one-element array, and the loop condition 2 <= -1 fails at once
      return Ok(Trace([], true));
    }
    var trace := RevolvingDoor(n, r, limit);
    res := Ok(trace);
  }
}
