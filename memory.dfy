/** The one piece of raw memory handling the containers share: `realloc`. */
module Memory {

  /**
   * `realloc(data, n)`: a fresh block of `n` slots whose first `|data|`
   * slots (at most `n`) hold the old contents. The remaining slots hold
   * unspecified values; every caller overwrites them.
   */
  method Realloc<T(0)>(data: array<T>, n: nat) returns (r: array<T>)
    requires data.Length <= n
    ensures fresh(r) && r.Length == n
    ensures r[..data.Length] == data[..]
  {
    r := new T[n];
    var i := 0;
    while i < data.Length
      invariant 0 <= i <= data.Length
      invariant r[..i] == data[..i]
    {
      r[i] := data[i];
      i := i + 1;
    }
  }
}
