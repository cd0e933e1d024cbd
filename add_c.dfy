// The two exports of archived/wasm/add.c: `add` and `sumArray`. C's `int` is 32 bits
// wide; compiled to WebAssembly its additions wrap, which the model writes out.

module AddC {
  import opened Int32

  /** The sum of a sequence in unbounded integers. */
  function Sum(s: seq<int>): int {
    if s == [] then 0 else Sum(s[..|s| - 1]) + s[|s| - 1]
  }

  /** `add(a, b)`: the wrapped sum. */
  function Add(a: int, b: int): (r: int)
    requires IsInt32(a) && IsInt32(b)
    ensures IsInt32(r) && (r - (a + b)) % Modulus == 0
    ensures IsInt32(a + b) ==> r == a + b
  {
    Wrap32(a + b)
  }

  /** `sumArray(array, length)`: the wrapped sum of the first `length` entries, 0 when
    * `length <= 0`; the array is only read. */
  method SumArray(a: array<int>, length: int) returns (sum: int)
    requires forall k :: 0 <= k < a.Length ==> IsInt32(a[k])
    requires length <= a.Length
    ensures length <= 0 ==> sum == 0
    ensures length > 0 ==> sum == Wrap32(Sum(a[..length]))
    ensures IsInt32(sum)
  {
    sum := 0;
    var i := 0;
    while i < length
      invariant 0 <= i <= (if length > 0 then length else 0)
      invariant sum == Wrap32(Sum(a[..i]))
    {
      assert a[..i + 1][..i] == a[..i];
      WrapAddLeft(Sum(a[..i]), a[i]);
      sum := Add(sum, a[i]);
      i := i + 1;
    }
  }
}
