/** `int_vec_t`: a growable array that doubles when full, with its amortised cost.

    The ghost fields record the history the cost bound speaks of: the initial capacity,
    the number of pushes, the greatest length so far, and the number of elements
    realloc() had to carry over. */
module IntVecs {
  import opened Basics

  lemma ScaleDoubles(c: nat, k: nat)
    requires k > 0
    ensures c * Pow2(k) == 2 * (c * Pow2(k - 1))
  {
  }

  class IntVec {
    var data: array<int>
    var length: nat
    var capacity: nat

    ghost var initial: nat
    ghost var doublings: nat
    ghost var pushes: nat
    ghost var peak: nat
    ghost var copied: nat

    ghost predicate Valid()
      reads this, data
    {
      && data.Length == capacity
      && length <= capacity
      && length <= peak <= pushes
      && capacity == initial * Pow2(doublings)
      && copied == capacity - initial
      && (doublings == 0 || initial == 0 || capacity <= 2 * (peak - 1))
    }

    ghost function Contents(): seq<int>
      requires Valid()
      reads this, data
    {
      data[..length]
    }

    constructor (capacity: nat)
      ensures Valid() && Contents() == [] && fresh(data)
      ensures this.capacity == initial == capacity && pushes == 0 && doublings == 0
    {
      data := new int[capacity];
      length, this.capacity, initial := 0, capacity, capacity;
      doublings, pushes, peak, copied := 0, 0, 0, 0;
    }

    /** realloc() to twice the capacity: the old elements are carried over. */
    method Grow()
      requires Valid() && length == capacity
      modifies this
      ensures data.Length == capacity == 2 * old(capacity) && fresh(data)
      ensures length == old(length) && data[..length] == old(data[..length])
      ensures initial == old(initial) && pushes == old(pushes) && peak == old(peak)
      ensures doublings == old(doublings) + 1 && copied == old(copied) + old(length)
      ensures capacity == initial * Pow2(doublings)
    {
      hide Pow2;
      var bigger := new int[2 * capacity];
      forall i | 0 <= i < length {
        bigger[i] := data[i];
      }
      assert bigger[..length] == data[..length];
      copied := copied + length;
      doublings := doublings + 1;
      ScaleDoubles(initial, doublings);
      data := bigger;
      capacity := 2 * capacity;
    }

    /** Appends.  Doubling a capacity of 0 makes no room: `inBounds` says whether the store is
        within the array, and without room nothing is appended. */
    method Push(val: int) returns (inBounds: bool)
      requires Valid()
      modifies this, data
      ensures Valid()
      ensures inBounds <==> old(capacity) > 0
      ensures Contents() == old(Contents()) + if inBounds then [val] else []
      ensures pushes == old(pushes) + (if inBounds then 1 else 0) && initial == old(initial)
      ensures inBounds ==> peak == if old(length) + 1 > old(peak) then old(length) + 1 else old(peak)
      ensures capacity == if old(length) == old(capacity) then 2 * old(capacity) else old(capacity)
      ensures data == old(data) || fresh(data)
    {
      if length == capacity {
        Grow();
      }
      inBounds := length < data.Length;
      if inBounds {
        data[length] := val;
        length := length + 1;
        pushes := pushes + 1;
        if length > peak {
          peak := length;
        }
      }
    }

    /** Removes and returns the last element. */
    method Pop() returns (val: int)
      requires Valid() && Contents() != []
      modifies this
      ensures Valid() && val == old(Contents())[|old(Contents())| - 1]
      ensures Contents() == old(Contents())[..|old(Contents())| - 1]
      ensures data == old(data) && capacity == old(capacity) && initial == old(initial)
      ensures pushes == old(pushes) && peak == old(peak) && copied == old(copied)
    {
      length := length - 1;
      val := data[length];
    }

    method Get(i: nat) returns (val: int)
      requires Valid() && i < |Contents()|
      ensures val == Contents()[i]
    {
      val := data[i];
    }

    /** Amortised growth, for every reachable vector: the capacity is the initial one times
        a power of two and at most twice the room ever needed, and all the copying of all
        the reallocations together is paid for by two units per push. */
    lemma AmortisedCost()
      requires Valid()
      ensures exists k :: capacity == initial * Pow2(k)
      ensures capacity <= (if initial > 2 * (peak - 1) then initial else 2 * (peak - 1))
      ensures copied == capacity - initial
      ensures pushes > 0 ==> copied < 2 * pushes
    {
      assert capacity == initial * Pow2(doublings);
      if doublings == 0 {
        assert Pow2(0) == 1;
      }
    }
  }
}
