/**
 * The Unix branch of the bounded counting semaphore: two POSIX counters,
 * `upCounter` (free room) and `downCounter` (the visible count), whose sum
 * stays at `maxCount`. A blocking `sem_wait` becomes a precondition.
 */
module Semaphores {

  /** Direction of one step taken by `SetCount`. */
  datatype Step = Up | Down

  class Semaphore {
    var upCounter: nat
    var downCounter: nat
    const maxCount: nat

    /** Increment and decrement move one unit between the two counters. */
    ghost predicate Valid()
      reads this
    {
      upCounter + downCounter == maxCount
    }

    /** `Sem_Create`: the count starts at `startCount`, the free room at `maxCount - startCount`. */
    constructor (startCount: nat, maxCount: nat)
      requires startCount <= maxCount
      ensures Valid()
      ensures this.maxCount == maxCount && GetCount() == startCount
    {
      this.maxCount := maxCount;
      upCounter := maxCount - startCount;
      downCounter := startCount;
    }

    /** `Sem_GetCount`: the value of `downCounter`, always within `0..maxCount`. */
    function GetCount(): (c: nat)
      reads this
      requires Valid()
      ensures c <= maxCount
      ensures c + upCounter == maxCount
    {
      downCounter
    }

    /** `Sem_Increment`: waits on `upCounter` (blocks while the count is at its maximum), posts `downCounter`. */
    method Increment()
      requires Valid() && GetCount() < maxCount
      modifies this
      ensures Valid()
      ensures GetCount() == old(GetCount()) + 1
    {
      upCounter := upCounter - 1;
      downCounter := downCounter + 1;
    }

    /** `Sem_Decrement`: waits on `downCounter` (blocks while the count is zero), posts `upCounter`. */
    method Decrement()
      requires Valid() && GetCount() > 0
      modifies this
      ensures Valid()
      ensures GetCount() == old(GetCount()) - 1
    {
      downCounter := downCounter - 1;
      upCounter := upCounter + 1;
    }

    /**
     * `Sem_SetCount`: a target above `maxCount` is ignored; otherwise the count is
     * stepped toward the target one unit at a time, all steps in the same direction.
     * `steps` records the steps taken.
     */
    method SetCount(count: nat) returns (ghost steps: seq<Step>)
      requires Valid()
      modifies this
      ensures Valid()
      ensures count <= maxCount ==> GetCount() == count
      ensures count > maxCount ==> GetCount() == old(GetCount()) && steps == []
      ensures count <= maxCount ==> |steps| == Distance(old(GetCount()), count)
      ensures forall k :: 0 <= k < |steps| ==> steps[k] == (if count < old(GetCount()) then Down else Up)
    {
      steps := [];
      if count <= maxCount {
        var currentCount := GetCount();
        if currentCount > count {
          for i := count to currentCount
            invariant Valid()
            invariant GetCount() == currentCount - (i - count)
            invariant |steps| == i - count
            invariant forall k :: 0 <= k < |steps| ==> steps[k] == Down
          {
            Decrement();
            steps := steps + [Down];
          }
        } else if currentCount < count {
          for i := currentCount to count
            invariant Valid()
            invariant GetCount() == i
            invariant |steps| == i - currentCount
            invariant forall k :: 0 <= k < |steps| ==> steps[k] == Up
          {
            Increment();
            steps := steps + [Up];
          }
        }
      }
    }
  }

  /** The number of unit steps between two counts. */
  function Distance(a: nat, b: nat): (d: nat)
    ensures a + d == b || b + d == a
  {
    if a <= b then b - a else a - b
  }
}
