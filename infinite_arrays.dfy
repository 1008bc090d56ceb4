/**
 * `InfiniteArray<T>`: a growable array indexed by any integer. Index `i`
 * lives in slot `i < 0 ? -2i-1 : 2i`, and the touched indices are tracked
 * as the range `[minIdx, maxIdx)`.
 */
module InfiniteArrays {
  import Memory

  /** The zig-zag slot of a signed index. */
  function ZigZag(i: int): nat
  {
    if i < 0 then -i * 2 - 1 else i * 2
  }

  /** The signed index stored in slot `k`. */
  function UnZigZag(k: nat): int
  {
    if k % 2 == 1 then -((k + 1) / 2) else k / 2
  }

  /** The zig-zag mapping is a bijection between the integers and the naturals. */
  lemma ZigZagBijection(i: int, k: nat)
    ensures UnZigZag(ZigZag(i)) == i
    ensures ZigZag(UnZigZag(k)) == k
  {
  }

  /** Slots grow with the distance from zero, so a range's slots are bounded by its endpoints' slots. */
  lemma {:induction false} ZigZagWithin(a: int, i: int, b: int)
    requires a <= i <= b
    ensures ZigZag(i) <= ZigZag(a) || ZigZag(i) <= ZigZag(b)
  {
    if i < 0 {
      assert ZigZag(i) <= ZigZag(a);
    } else {
      assert ZigZag(i) <= ZigZag(b);
    }
  }

  class InfiniteArray<T(0)> {
    var data: array<T>
    var size: int
    var minIdx: int
    var maxIdx: int
    /** The template's `initValue`: what an index never set reads as. */
    const initValue: T

    ghost predicate Valid()
      reads this, data
    {
      && size == data.Length
      && minIdx <= 0 <= maxIdx
      && (forall i :: minIdx <= i < maxIdx ==> ZigZag(i) < size)
      && (forall k :: 0 <= k < size && !(minIdx <= UnZigZag(k) < maxIdx) ==> data[k] == initValue)
    }

    constructor (initValue: T)
      ensures Valid() && fresh(data) && this.initValue == initValue
      ensures minIdx == 0 && maxIdx == 0
      ensures forall i :: Get(i) == initValue
    {
      data := new T[0];
      size := 0;
      minIdx := 0;
      maxIdx := 0;
      this.initValue := initValue;
    }

    function MinIndex(): int
      reads this
    {
      minIdx
    }

    function MaxIndex(): int
      reads this
    {
      maxIdx
    }

    /** The value at `index`: `initValue` outside the touched range. */
    function Get(index: int): (r: T)
      reads this, data
      requires Valid()
      ensures !(minIdx <= index < maxIdx) ==> r == initValue
    {
      if index < minIdx || index >= maxIdx then initValue else data[ZigZag(index)]
    }

    /** Grows the storage to at least 128 slots, or to twice the requested count. */
    method Resize(sz: int)
      requires Valid()
      modifies this
      ensures Valid() && minIdx == old(minIdx) && maxIdx == old(maxIdx)
      ensures size >= sz && size >= old(size)
      ensures data == old(data) || fresh(data)
      ensures forall i :: Get(i) == old(Get(i))
      ensures forall k :: 0 <= k < old(size) ==> data[k] == old(data[k])
    {
      var n := if sz < 128 then 128 else sz * 2;
      if size < n {
        var nd := Memory.Realloc(data, n);
        var i := size;
        while i < n
          invariant size <= i <= n
          invariant nd[..size] == data[..]
          invariant forall k :: size <= k < i ==> nd[k] == initValue
          modifies nd
        {
          nd[i] := initValue;
          i := i + 1;
        }
        forall k | 0 <= k < size
          ensures nd[k] == data[k]
        {
          assert nd[..size][k] == data[..][k];
        }
        data := nd;
        size := n;
      }
    }

    /** Stores `value` at `index` and widens the touched range to include it. */
    method Set(index: int, value: T)
      requires Valid()
      modifies this, data
      ensures Valid()
      ensures Get(index) == value
      ensures forall i :: i != index ==> Get(i) == old(Get(i))
      ensures minIdx == (if old(minIdx) > index then index else old(minIdx))
      ensures maxIdx == (if old(maxIdx) < index + 1 then index + 1 else old(maxIdx))
      ensures data == old(data) || fresh(data)
    {
      var idx := ZigZag(index);
      Resize(idx + 1);
      data[idx] := value;
      if minIdx > index {
        minIdx := index;
      }
      if maxIdx < index + 1 {
        maxIdx := index + 1;
      }
      forall i | minIdx <= i < maxIdx
        ensures ZigZag(i) < size
      {
        if old(minIdx) <= i < old(maxIdx) {
        } else if i < old(minIdx) {
          ZigZagWithin(index, i, 0);
        } else {
          ZigZagWithin(0, i, index);
        }
      }
      forall k | 0 <= k < size && !(minIdx <= UnZigZag(k) < maxIdx)
        ensures data[k] == initValue
      {
        ZigZagBijection(index, k);
      }
      forall i | i != index
        ensures Get(i) == old(Get(i))
      {
        ZigZagBijection(i, idx);
        ZigZagBijection(index, ZigZag(i));
      }
    }
  }
}
