// 32-bit two's-complement integers, as C's `int` behaves once compiled to WebAssembly
// (`i32.add` wraps) and as JavaScript's `Int32Array` stores a number (ToInt32).

module Int32 {

  const Modulus: int := 0x1_0000_0000
  const MinInt32: int := -0x8000_0000
  const MaxInt32: int := 0x7fff_ffff

  predicate IsInt32(x: int) {
    MinInt32 <= x <= MaxInt32
  }

  /** The 32-bit value `x` wraps to: the one in range that agrees with `x` modulo 2^32. */
  function Wrap32(x: int): (r: int)
    ensures IsInt32(r)
    ensures (r - x) % Modulus == 0
    ensures IsInt32(x) ==> r == x
  {
    (x - MinInt32) % Modulus + MinInt32
  }

  /** Wrapping after every step of a sum is the same as wrapping once at the end. */
  lemma WrapAddLeft(x: int, y: int)
    ensures Wrap32(Wrap32(x) + y) == Wrap32(x + y)
  {
    var k := (x - MinInt32) / Modulus;
    assert Wrap32(x) == x - k * Modulus;
    ShiftByModulus(x + y - MinInt32, k);
  }

  lemma ShiftByModulus(a: int, k: int)
    ensures (a - k * Modulus) % Modulus == a % Modulus
  {
    var q := a / Modulus;
    var r := a % Modulus;
    assert a - k * Modulus == (q - k) * Modulus + r;
  }
}
