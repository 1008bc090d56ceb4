/**
 * `SymmetricMatrix<T, initValue>`: a square of `(2*size-1)^2` values
 * addressed by coordinates centred on the origin.
 */
module SymmetricMatrices {

  /** Stepping the row index up by at least one moves the row start a whole row forward. */
  lemma RowStep(a: int, b: int, dx: int)
    requires 0 <= a < b && dx >= 0
    ensures 0 <= a * dx && (a + 1) * dx <= b * dx
  {
    var k := b - a - 1;
    assert b * dx == (a + 1) * dx + k * dx;
    assert k * dx >= 0;
  }

  /** Row-major slots of a `dx` by `dx` square are distinct and in bounds. */
  lemma RowMajorSlot(dx: int, a: int, b: int, a': int, b': int)
    requires 0 <= a < dx && 0 <= b < dx && 0 <= a' < dx && 0 <= b' < dx
    ensures 0 <= a * dx + b < dx * dx
    ensures a * dx + b == a' * dx + b' ==> a == a' && b == b'
  {
    RowStep(a, dx, dx);
    assert (a + 1) * dx == a * dx + dx;
    if a < a' {
      RowStep(a, a', dx);
      assert (a + 1) * dx == a * dx + dx;
    } else if a' < a {
      RowStep(a', a, dx);
      assert (a' + 1) * dx == a' * dx + dx;
    }
  }

  /** The coordinates a matrix reset to `sz` can hold: `|x|, |y| <= sz - 1`. */
  predicate WithinSize(sz: int, x: int, y: int)
  {
    -(sz - 1) <= x <= sz - 1 && -(sz - 1) <= y <= sz - 1
  }

  class SymmetricMatrix<T(0)> {
    var size: int
    var dx: int
    var dx2: int
    var data: array<T>
    const initValue: T

    ghost predicate Valid()
      reads this
    {
      size >= 1 && dx == size + size - 1 && dx2 == dx / 2 && data.Length == dx * dx
    }

    /** Coordinates the current storage can address. */
    predicate InBounds(x: int, y: int)
      reads this
    {
      0 <= x + dx2 < dx && 0 <= y + dx2 < dx
    }

    /** `SymmetricMatrix(int sz = 1)`: storage for `sz`, every entry `initValue`. */
    constructor (sz: int, initValue: T)
      requires sz >= 1
      ensures Valid() && size == sz && this.initValue == initValue && fresh(data)
      ensures forall x, y :: InBounds(x, y) <==> WithinSize(sz, x, y)
      ensures forall x, y :: InBounds(x, y) ==> Get(x, y) == initValue
    {
      size := sz;
      dx := sz + sz - 1;
      dx2 := (sz + sz - 1) / 2;
      this.initValue := initValue;
      data := new T[(sz + sz - 1) * (sz + sz - 1)](_ => initValue);
      new;
      forall x, y | InBounds(x, y) ensures Get(x, y) == initValue {
        RowMajorSlot(dx, x + dx2, y + dx2, 0, 0);
      }
    }

    function Get(x: int, y: int): T
      reads this, data
      requires Valid() && InBounds(x, y)
    {
      RowMajorSlot(dx, x + dx2, y + dx2, 0, 0);
      data[(x + dx2) * dx + (y + dx2)]
    }

    method Set(x: int, y: int, value: T)
      requires Valid() && InBounds(x, y)
      modifies data
      ensures Valid() && Get(x, y) == value
      ensures forall x', y' :: InBounds(x', y') && (x', y') != (x, y) ==> Get(x', y') == old(Get(x', y'))
    {
      RowMajorSlot(dx, x + dx2, y + dx2, 0, 0);
      data[(x + dx2) * dx + (y + dx2)] := value;
      forall x', y' | InBounds(x', y') && (x', y') != (x, y)
        ensures Get(x', y') == old(Get(x', y'))
      {
        RowMajorSlot(dx, x + dx2, y + dx2, x' + dx2, y' + dx2);
      }
    }

    function Size(): int
      reads this
    {
      size
    }

    /** Re-sizes the storage when `sz` differs, then sets every entry to `initValue`. */
    method Reset(sz: int)
      requires Valid() && sz >= 1
      modifies this, data
      ensures Valid() && size == sz
      ensures forall x, y :: InBounds(x, y) <==> WithinSize(sz, x, y)
      ensures forall x, y :: InBounds(x, y) ==> Get(x, y) == initValue
      ensures data == old(data) || fresh(data)
    {
      if size != sz {
        size := sz;
        dx := size + size - 1;
        dx2 := dx / 2;
        data := new T[dx * dx];
      }
      var i := dx * dx - 1;
      while i >= 0
        invariant -1 <= i < dx * dx
        invariant forall k :: i < k < dx * dx ==> data[k] == initValue
        modifies data
      {
        data[i] := initValue;
        i := i - 1;
      }
      forall x, y | InBounds(x, y) ensures Get(x, y) == initValue {
        RowMajorSlot(dx, x + dx2, y + dx2, 0, 0);
      }
    }
  }
}
