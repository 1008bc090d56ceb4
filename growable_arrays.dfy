/** `Array<T>`: an append-only growable buffer with an explicit length. */
module GrowableArrays {
  import Memory

  /** Doubling `c` until it reaches `n`: the first `c * 2^k` that is at least `n`. */
  function Doubled(c: int, n: int): (r: int)
    requires c >= 1
    ensures r >= c && r >= n
    ensures r < 2 * n || r == c
    decreases n - c
  {
    if c >= n then c else Doubled(2 * c, n)
  }

  /** The capacity `reserve` grows to: the first `1024 * 2^k` that fits `n` elements. */
  function GrownCapacity(n: int): int
  {
    Doubled(1024, n)
  }

  class Array<T(0)> {
    var size: int
    var length: int
    var data: array<T>
    /** `T()`: the value spare slots are filled with. */
    const initValue: T

    ghost predicate Valid()
      reads this
    {
      0 <= length <= size && size == data.Length
    }

    /** The elements `[0, length)`. */
    ghost function Contents(): seq<T>
      reads this, data
      requires Valid()
    {
      data[..length]
    }

    constructor (initValue: T)
      ensures Valid() && fresh(data)
      ensures Contents() == [] && size == 0 && this.initValue == initValue
    {
      size := 0;
      length := 0;
      data := new T[0];
      this.initValue := initValue;
    }

    /** Exchanges the size, length and storage of two arrays. */
    method Swap(v: Array<T>)
      requires Valid() && v.Valid() && v != this
      modifies this, v
      ensures Valid() && v.Valid()
      ensures data == old(v.data) && v.data == old(data)
      ensures Contents() == old(v.Contents()) && v.Contents() == old(Contents())
      ensures size == old(v.size) && v.size == old(size)
    {
      var tmp := size; size := v.size; v.size := tmp;
      tmp := length; length := v.length; v.length := tmp;
      var ptmp := data; data := v.data; v.data := ptmp;
    }

    /** Ensures the capacity fits `sz` more elements; grows to the smallest `1024 * 2^k` that does. */
    method Reserve(sz: int)
      requires Valid()
      modifies this
      ensures Valid() && length == old(length) && Contents() == old(Contents())
      ensures size >= old(length) + sz && size >= old(size)
      ensures old(size) >= old(length) + sz ==> data == old(data) && size == old(size)
      ensures old(size) < old(length) + sz ==> fresh(data) && size == GrownCapacity(old(length) + sz)
    {
      var need := sz + length;
      if size < need {
        var newsize := 1024;
        while newsize < need
          invariant newsize >= 1024
          invariant Doubled(newsize, need) == GrownCapacity(need)
          invariant unchanged(this)
          decreases need - newsize
        {
          newsize := newsize * 2;
        }
        var nd := Memory.Realloc(data, newsize);
        var i := size;
        while i < newsize
          invariant size <= i <= newsize
          invariant nd[..size] == data[..]
          modifies nd
        {
          nd[i] := initValue;
          i := i + 1;
        }
        data := nd;
        size := newsize;
      }
    }

    function Length(): int
      reads this
    {
      length
    }

    method Append(value: T)
      requires Valid()
      modifies this, data
      ensures Valid() && Contents() == old(Contents()) + [value]
      ensures data == old(data) || fresh(data)
    {
      if length >= size {
        Reserve(if size == 0 then 64 else size * 2 - length);
      }
      data[length] := value;
      length := length + 1;
    }

    /** `appendNoCheck`: the caller guarantees a spare slot. */
    method AppendNoCheck(value: T)
      requires Valid() && length < size
      modifies this, data
      ensures Valid() && Contents() == old(Contents()) + [value] && data == old(data)
    {
      data[length] := value;
      length := length + 1;
    }

    /** Appends `count` copies of `value`; returns where the first one went. */
    method AppendCount(value: T, count: int) returns (start: int)
      requires Valid()
      modifies this, data
      ensures Valid() && start == old(length)
      ensures Contents() == old(Contents()) + seq(if count < 0 then 0 else count, _ => value)
      ensures data == old(data) || fresh(data)
    {
      start := length;
      var i := 0;
      while i < count
        invariant Valid()
        invariant 0 <= i <= (if count < 0 then 0 else count)
        invariant Contents() == old(Contents()) + seq(i, _ => value)
        invariant data == old(data) || fresh(data)
      {
        Append(value);
        i := i + 1;
      }
    }

    method Clear()
      requires Valid()
      modifies this
      ensures Valid() && Contents() == [] && data == old(data) && size == old(size)
    {
      length := 0;
    }

    function Get(index: int): (r: T)
      reads this, data
      requires Valid() && 0 <= index < size
      ensures index < length ==> r == Contents()[index]
    {
      data[index]
    }

    method Set(index: int, value: T)
      requires Valid() && 0 <= index < size
      modifies data
      ensures Valid() && Get(index) == value
      ensures index < length ==> Contents() == old(Contents())[index := value]
      ensures index >= length ==> Contents() == old(Contents())
    {
      data[index] := value;
    }
  }
}
