/** HashBuilder: combines the hash codes of several items into one 32-bit hash by
    multiplication with the primes 17 and 23. An item is represented by its hash code
    (the value its GetHashCode returns). */
module HashBuilder {
  import opened Wrappers
  import opened Integers

  const Prime1: Int32 := 17
  const Prime2: Int32 := 23

  /** The effect of Add on Result: Result * Prime2 * itemHash with each product wrapped to
      32 bits, and no change for a zero item hash. */
  function AddHash(result: Int32, itemHash: Int32): Int32
  {
    if itemHash == 0 then result
    else Wrap32(Wrap32(result * Prime2) * itemHash)
  }

  lemma ProductsSwap(r: int, a: int, b: int)
    ensures r * Prime2 * a * (Prime2 * b) == r * Prime2 * b * (Prime2 * a)
  {
  }

  /** Add's wrapped product is the true product Result * 23 * itemHash reduced to 32 bits,
      and a zero item hash leaves Result alone. */
  lemma AddHashIsWrappedProduct(result: Int32, itemHash: Int32)
    ensures itemHash == 0 ==> AddHash(result, itemHash) == result
    ensures itemHash != 0 ==> AddHash(result, itemHash) == Wrap32(result * Prime2 * itemHash)
  {
    if itemHash != 0 {
      Wrap32MulInner(result * Prime2, itemHash);
    }
  }

  /** Result after adding each item hash in order, starting from result. */
  function AddAll(result: Int32, itemHashes: seq<Int32>): Int32
    decreases |itemHashes|
  {
    if itemHashes == [] then result
    else AddAll(AddHash(result, itemHashes[0]), itemHashes[1..])
  }

  class HashBuilder {
    var result: Int32

    /** HashBuilder(): Result starts at 17. */
    constructor ()
      ensures result == Prime1
    {
      result := Prime1;
    }

    /** HashBuilder(startHash): Result starts at startHash. */
    constructor WithStart(startHash: Int32)
      ensures result == startHash
    {
      result := startHash;
    }

    method Add(itemHash: Int32)
      modifies this
      ensures result == AddHash(old(result), itemHash)
    {
      if itemHash != 0 {
        result := Wrap32(Wrap32(result * Prime2) * itemHash);
      }
    }

    /** AddItems(params T[]) and AddItems(IEnumerable<T>): Add on each item in order. */
    method AddItems(itemHashes: seq<Int32>)
      modifies this
      ensures result == AddAll(old(result), itemHashes)
    {
      for i := 0 to |itemHashes|
        invariant AddAll(old(result), itemHashes) == AddAll(result, itemHashes[i..])
      {
        assert itemHashes[i..][1..] == itemHashes[i + 1..];
        Add(itemHashes[i]);
      }
    }

    /** GetEnumerator always raises NotImplementedException. */
    method GetEnumerator() returns (r: Result<()>)
      ensures r == Err(NotImplemented)
    {
      r := Err(NotImplemented);
    }
  }

  /** Adding two lists one after the other is adding their concatenation. */
  lemma {:induction false} AddAllAppend(result: Int32, a: seq<Int32>, b: seq<Int32>)
    ensures AddAll(result, a + b) == AddAll(AddAll(result, a), b)
    decreases |a|
  {
    if a != [] {
      var h := AddHash(result, a[0]);
      assert (a + b)[0] == a[0] && (a + b)[1..] == a[1..] + b;
      assert AddAll(result, a + b) == AddAll(h, a[1..] + b);
      assert AddAll(result, a) == AddAll(h, a[1..]);
      AddAllAppend(h, a[1..], b);
    } else {
      assert a + b == b;
    }
  }

  /** Zero item hashes are skipped. */
  lemma {:induction false} AddAllZeros(result: Int32, n: nat)
    ensures AddAll(result, seq(n, _ => 0)) == result
  {
    if n > 0 {
      assert seq(n, _ => 0)[1..] == seq(n - 1, _ => 0);
      AddAllZeros(result, n - 1);
    }
  }

  lemma MulAssoc(x: int, y: int, z: int)
    ensures x * y * z == x * (y * z)
  {
  }

  /** Two non-zero items wrap the product result * 23 * a * 23 * b. */
  lemma AddHashTwice(result: Int32, a: Int32, b: Int32)
    requires a != 0 && b != 0
    ensures AddHash(AddHash(result, a), b) == Wrap32(result * Prime2 * a * (Prime2 * b))
  {
    var ra := AddHash(result, a);
    AddHashIsWrappedProduct(result, a);
    AddHashIsWrappedProduct(ra, b);
    MulAssoc(ra, Prime2, b);
    Wrap32MulInner(result * Prime2 * a, Prime2 * b);
  }

  /** Add is multiplicative, so the order of two items does not change the hash. */
  lemma AddHashCommutes(result: Int32, a: Int32, b: Int32)
    ensures AddHash(AddHash(result, a), b) == AddHash(AddHash(result, b), a)
  {
    if a != 0 && b != 0 {
      AddHashTwice(result, a, b);
      AddHashTwice(result, b, a);
      ProductsSwap(result, a, b);
    }
  }

  /** HashBuilderTest: Add and AddItems on equal starts and equal items agree. */
  method HashBuilderScenario() returns (viaAdd: Int32, viaAddItems: Int32, enumerated: Result<()>)
    ensures viaAdd == viaAddItems == AddAll(Prime1, [2, 1, 4, 3])
    ensures enumerated == Err(NotImplemented)
  {
    var target := new HashBuilder();
    target.Add(2);
    target.Add(1);
    target.Add(4);
    target.Add(3);
    viaAdd := target.result;
    var target2 := new HashBuilder();
    target2.AddItems([2, 1, 4, 3]);
    viaAddItems := target2.result;
    assert [2, 1, 4, 3][1..] == [1, 4, 3] && [1, 4, 3][1..] == [4, 3] && [4, 3][1..] == [3];
    var h2 := AddHash(Prime1, 2);
    var h1 := AddHash(h2, 1);
    var h4 := AddHash(h1, 4);
    assert AddAll(h4, [3]) == AddHash(h4, 3);
    assert AddAll(h1, [4, 3]) == AddAll(h4, [3]);
    assert AddAll(h2, [1, 4, 3]) == AddAll(h1, [4, 3]);
    enumerated := target.GetEnumerator();
  }
}
