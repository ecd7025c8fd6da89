/** Dependant invokers: objects that run an action once a number of asynchronous calls have
    called back. The action is represented by a counter of how many times it has run. */
module DependantInvoker {
  import opened Wrappers
  import opened Integers

  /** IDDependantInvoker: Add hands out the ids 0, 1, 2, ... and records them as outstanding;
      the action runs when Fullfill removes the last outstanding id, and the ids start over. */
  class IDDependantInvoker {
    var dependencyCount: Int32
    var ids: set<Int32>
    /** How many times the action has run. */
    var runs: nat

    constructor ()
      ensures dependencyCount == 0 && ids == {} && runs == 0
      ensures Valid()
    {
      dependencyCount := 0;
      ids := {};
      runs := 0;
    }

    /** Every outstanding id was handed out since the counter was last reset. */
    predicate Valid()
      reads this
    {
      0 <= dependencyCount && forall id :: id in ids ==> 0 <= id < dependencyCount
    }

    /** Add: the current counter is the new id; the counter advances with 32-bit
        wrap-around. */
    method Add() returns (id: Int32)
      modifies this
      ensures id == old(dependencyCount)
      ensures dependencyCount == Wrap32(old(dependencyCount) + 1)
      ensures ids == old(ids) + {id}
      ensures runs == old(runs)
      ensures old(Valid()) && old(dependencyCount) < 0x7FFF_FFFF ==> Valid() && id !in old(ids)
    {
      id := dependencyCount;
      dependencyCount := Wrap32(dependencyCount + 1);
      ids := ids + {id};
    }

    /** Fullfill: forget the id; when none remain, run the action and reset the counter. */
    method Fullfill(id: Int32)
      modifies this
      ensures ids == old(ids) - {id}
      ensures ids == {} ==> runs == old(runs) + 1 && dependencyCount == 0
      ensures ids != {} ==> runs == old(runs) && dependencyCount == old(dependencyCount)
      ensures old(Valid()) ==> Valid()
    {
      ids := ids - {id};
      if |ids| == 0 {
        runs := runs + 1;
        dependencyCount := 0;
      }
    }
  }

  /** CountDependantInvoker: Add counts up, Fullfill counts down and runs the action when
      the count lands on exactly 0. */
  class CountDependantInvoker {
    var dependencyCount: Int32
    var runs: nat

    constructor ()
      ensures dependencyCount == 0 && runs == 0
    {
      dependencyCount := 0;
      runs := 0;
    }

    method Add()
      modifies this
      ensures dependencyCount == Wrap32(old(dependencyCount) + 1)
      ensures runs == old(runs)
    {
      dependencyCount := Wrap32(dependencyCount + 1);
    }

    method Fullfill()
      modifies this
      ensures dependencyCount == Wrap32(old(dependencyCount) - 1)
      ensures runs == old(runs) + (if dependencyCount == 0 then 1 else 0)
    {
      dependencyCount := Wrap32(dependencyCount - 1);
      if dependencyCount == 0 {
        runs := runs + 1;
      }
    }
  }

  /** The index at which Fullfill's scan stops: the first empty slot or the first slot
      holding the same reference, or |slots| when there is neither. */
  function StopIndex(slots: seq<object?>, dependancy: object?): (i: nat)
    ensures i <= |slots|
    ensures forall k :: 0 <= k < i ==> slots[k] != null && slots[k] != dependancy
    ensures i < |slots| ==> slots[i] == null || slots[i] == dependancy
  {
    if slots == [] then 0
    else if slots[0] == null || slots[0] == dependancy then 0
    else 1 + StopIndex(slots[1..], dependancy)
  }

  /** The slots after Fullfill(dependancy): the scan's stopping slot receives the object
      if it was empty. */
  function Fulfilled(slots: seq<object?>, dependancy: object?): (r: seq<object?>)
    ensures |r| == |slots|
  {
    var i := StopIndex(slots, dependancy);
    if i < |slots| && slots[i] == null then slots[i := dependancy] else slots
  }

  /** The filled slots form a prefix and hold distinct references. */
  predicate SlotsValid(slots: seq<object?>)
  {
    (forall i, j :: 0 <= i < j < |slots| && slots[j] != null ==> slots[i] != null) &&
    (forall i, j :: 0 <= i < j < |slots| && slots[j] != null ==> slots[i] != slots[j])
  }

  /** The number of filled slots: the index of the first empty one. */
  function FilledCount(slots: seq<object?>): (n: nat)
    ensures n <= |slots|
  {
    StopIndex(slots, null)
  }

  /** Fullfill keeps the filled slots a gap-free prefix of distinct objects, and fills one
      more slot exactly when the object is new, non-null and a slot is free. */
  lemma FulfilledKeepsSlotsValid(slots: seq<object?>, dependancy: object?)
    requires SlotsValid(slots)
    ensures SlotsValid(Fulfilled(slots, dependancy))
    ensures FilledCount(Fulfilled(slots, dependancy)) ==
      FilledCount(slots) + (if dependancy != null && dependancy !in slots && FilledCount(slots) < |slots| then 1 else 0)
  {
    var i := StopIndex(slots, dependancy);
    var n := FilledCount(slots);
    var r := Fulfilled(slots, dependancy);
    assert forall k :: n <= k < |slots| ==> slots[k] == null;
    if dependancy != null && dependancy in slots {
      var k :| 0 <= k < |slots| && slots[k] == dependancy;
      assert i <= k;
      assert r == slots;
    } else if dependancy == null {
      assert i == n;
      assert r == slots;
    } else {
      assert i == n;
      if n < |slots| {
        assert r == slots[n := dependancy];
        assert forall k :: 0 <= k < n ==> r[k] != null;
        FilledCountAt(r, n + 1);
      }
    }
  }

  /** A prefix of n filled slots followed by an empty one (or the end) means n are filled. */
  lemma FilledCountAt(slots: seq<object?>, n: nat)
    requires n <= |slots|
    requires forall k :: 0 <= k < n ==> slots[k] != null
    requires n < |slots| ==> slots[n] == null
    ensures FilledCount(slots) == n
  {
  }

  /** With valid slots, the last slot is filled exactly when every slot is. */
  lemma LastSlotFilled(slots: seq<object?>)
    requires SlotsValid(slots) && |slots| > 0
    ensures slots[|slots| - 1] != null <==> FilledCount(slots) == |slots|
  {
  }

  /** UniqueObjectDependantInvoker: the action runs on each Fullfill once numDependancies
      distinct objects have been supplied. */
  class UniqueObjectDependantInvoker {
    const slots: array<object?>
    var runs: nat

    /** The constructor's new object[numDependancies], for a non-negative size. */
    constructor (numDependancies: nat)
      ensures fresh(slots) && slots.Length == numDependancies
      ensures forall k :: 0 <= k < slots.Length ==> slots[k] == null
      ensures runs == 0
    {
      slots := new object?[numDependancies](_ => null);
      runs := 0;
    }

    /** Fullfill: scan for the first empty slot or the same reference; fill an empty slot;
        run the action when the last slot is filled. An invoker with no slots raises
        IndexOutOfRangeException. */
    method Fullfill(dependancy: object?) returns (r: Result<()>)
      modifies this, slots
      ensures slots[..] == Fulfilled(old(slots[..]), dependancy)
      ensures r == if slots.Length == 0 then Err(IndexOutOfRange) else Ok(())
      ensures runs == old(runs) + (if slots.Length > 0 && slots[slots.Length - 1] != null then 1 else 0)
    {
      ghost var s := slots[..];
      var i := 0;
      while i < slots.Length
        invariant 0 <= i <= slots.Length
        invariant slots[..] == s
        invariant forall k :: 0 <= k < i ==> s[k] != null && s[k] != dependancy
      {
        if slots[i] == null {
          slots[i] := dependancy;
          break;
        }
        if slots[i] == dependancy {
          break;
        }
        i := i + 1;
      }
      if slots.Length == 0 {
        return Err(IndexOutOfRange);
      }
      if slots[slots.Length - 1] != null {
        runs := runs + 1;
      }
      r := Ok(());
    }
  }

  /** new UniqueObjectDependantInvoker(action, numDependancies): a negative size raises
      OverflowException. */
  method NewUniqueObjectDependantInvoker(numDependancies: Int32) returns (r: Result<UniqueObjectDependantInvoker>)
    ensures r.Err? <==> numDependancies < 0
    ensures r.Ok? ==> fresh(r.value) && fresh(r.value.slots) && r.value.slots.Length == numDependancies && r.value.runs == 0
    ensures r.Ok? ==> forall k :: 0 <= k < r.value.slots.Length ==> r.value.slots[k] == null
  {
    if numDependancies < 0 {
      return Err(Overflow);
    }
    var invoker := new UniqueObjectDependantInvoker(numDependancies);
    r := Ok(invoker);
  }

  /** DependantInvokerTest, IDDependantInvoker: three calls, three callbacks, one run. */
  method IDScenario() returns (ids: seq<Int32>, runs: nat)
    ensures ids == [0, 1, 2] && runs == 1
  {
    var target := new IDDependantInvoker();
    var id1 := target.Add();
    var id2 := target.Add();
    var id3 := target.Add();
    target.Fullfill(id1);
    target.Fullfill(id2);
    target.Fullfill(id3);
    ids, runs := [id1, id2, id3], target.runs;
  }

  /** DependantInvokerTest, CountDependantInvoker: the action runs once the count is back
      at 0, whether the callbacks come after all calls or after each one. */
  method CountScenario() returns (runsAfterAll: nat, runsInterleaved: nat)
    ensures runsAfterAll == 1 && runsInterleaved == 3
  {
    var target := new CountDependantInvoker();
    target.Add();
    target.Add();
    target.Add();
    target.Fullfill();
    target.Fullfill();
    target.Fullfill();
    runsAfterAll := target.runs;
    var other := new CountDependantInvoker();
    other.Add();
    other.Fullfill();
    other.Add();
    other.Fullfill();
    other.Add();
    other.Fullfill();
    runsInterleaved := other.runs;
  }

  /** DependantInvokerTest, UniqueObjectDependantInvoker: three slots, four callbacks with
      one repeated object; the action runs once, on the fourth. */
  method UniqueObjectScenario() returns (runs: nat)
    ensures runs == 1
  {
    var target := new UniqueObjectDependantInvoker(3);
    var object1 := new object;
    var object2 := new object;
    var object3 := new object;
    var _ := target.Fullfill(object1);
    assert target.slots[..] == [object1, null, null];
    var _ := target.Fullfill(object1);
    assert target.slots[..] == [object1, null, null];
    assert object2 != object1;
    assert StopIndex([object1, null, null], object2) == 1 by {
      assert [object1, null, null][1..] == [null, null];
    }
    var _ := target.Fullfill(object2);
    assert target.slots[..] == [object1, object2, null];
    assert target.runs == 0;
    assert StopIndex([object1, object2, null], object3) == 2 by {
      assert [object1, object2, null][1..] == [object2, null];
      assert [object2, null][1..] == [null];
    }
    var _ := target.Fullfill(object3);
    assert target.slots[..] == [object1, object2, object3];
    runs := target.runs;
  }
}
