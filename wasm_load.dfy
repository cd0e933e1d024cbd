// The memory helper of wasm/load.ts: reads and writes through views of a WebAssembly
// memory buffer. The buffer is an array of bytes; its `Int32Array` view sees word `k`
// in bytes 4k..4k+3, little-endian, and only whole words (JavaScript's typed arrays
// ignore writes past their end and clamp `subarray` bounds). Text is ASCII, one byte
// per character.

module WasmLoad {
  import opened Common
  import opened Int32

  newtype byte = x: int | 0 <= x < 256

  // ---------------------------------------------------------------------------------
  // Words over bytes.

  /** The four little-endian bytes `Int32Array` stores for the number `x` (ToInt32). */
  function Encode(x: int): (bs: seq<byte>)
    ensures |bs| == 4
  {
    var u := x % Modulus;
    var q1 := u / 256;
    var q2 := q1 / 256;
    [(u % 256) as byte, (q1 % 256) as byte, (q2 % 256) as byte, (q2 / 256) as byte]
  }

  /** The signed word `Int32Array` reads from four little-endian bytes. */
  function Decode(bs: seq<byte>): (x: int)
    requires |bs| == 4
    ensures IsInt32(x)
  {
    var u := bs[0] as int + 256 * bs[1] as int + 65536 * bs[2] as int + 16777216 * bs[3] as int;
    if u <= MaxInt32 then u else u - Modulus
  }

  /** Reading back a stored number gives the number wrapped to 32 bits. */
  lemma DecodeEncode(x: int)
    ensures Decode(Encode(x)) == Wrap32(x)
  {
    var u := x % Modulus;
    var q1 := u / 256;
    var q2 := q1 / 256;
    assert u == u % 256 + 256 * q1;
    assert q1 == q1 % 256 + 256 * q2;
    assert q2 == q2 % 256 + 256 * (q2 / 256);
    var bs := Encode(x);
    assert bs[0] as int + 256 * bs[1] as int + 65536 * bs[2] as int + 16777216 * bs[3] as int == u;
    WrapAsRemainder(x);
  }

  /** `Wrap32` in terms of the non-negative remainder modulo 2^32. */
  lemma WrapAsRemainder(x: int)
    ensures Wrap32(x) == if x % Modulus <= MaxInt32 then x % Modulus else x % Modulus - Modulus
  {
    var q := x / Modulus;
    var u := x % Modulus;
    if u <= MaxInt32 {
      ModOf(x - MinInt32, q, u - MinInt32);
    } else {
      ModOf(x - MinInt32, q + 1, u - MinInt32 - Modulus);
    }
  }

  /** The remainder is determined by any quotient-remainder split with the remainder in range. */
  lemma ModOf(a: int, q: int, r: int)
    requires a == q * Modulus + r && 0 <= r < Modulus
    ensures a % Modulus == r
  {
    var q' := a / Modulus;
    var r' := a % Modulus;
    assert (q - q') * Modulus == r' - r;
  }

  /** The number of whole words in a buffer of `n` bytes: the length of its `Int32Array`. */
  function Words(n: nat): nat {
    n / 4
  }

  /** `view[k] = x` on the word view of `m`: no effect past the last whole word. */
  function PutWord(m: seq<byte>, k: nat, x: int): (r: seq<byte>)
    ensures |r| == |m|
    ensures forall j :: 0 <= j < |m| ==>
      r[j] == if k < Words(|m|) && 4 * k <= j < 4 * k + 4 then Encode(x)[j - 4 * k] else m[j]
  {
    if k < Words(|m|) then
      var e := Encode(x);
      m[4 * k := e[0]][4 * k + 1 := e[1]][4 * k + 2 := e[2]][4 * k + 3 := e[3]]
    else m
  }

  /** The buffer after `view[i] = array[i]` for every `i` of `a`, in order. */
  function PutWords(m: seq<byte>, a: seq<int>): (r: seq<byte>)
    ensures |r| == |m|
  {
    if a == [] then m else PutWord(PutWords(m, a[..|a| - 1]), |a| - 1, a[|a| - 1])
  }

  /** The word `k` of a buffer. */
  function GetWord(m: seq<byte>, k: nat): (x: int)
    requires k < Words(|m|)
  {
    Decode(m[4 * k..4 * k + 4])
  }

  /** `ToIntegerOrInfinity(ptr / 4)` for an integer `ptr`: division truncated toward zero. */
  function WordIndex(ptr: int): int {
    if ptr >= 0 then ptr / 4 else -((-ptr) / 4)
  }

  /** A `subarray` bound: a negative one counts from the end, and both are clamped. */
  function Clamp(rel: int, len: nat): (r: nat)
    ensures r <= len
  {
    if rel < 0 then (if len + rel < 0 then 0 else len + rel) else if rel < len then rel else len
  }

  /** `Array.from(view.subarray(ptr / 4, ptr / 4 + length))`. The end bound is the number
    * `ptr / 4 + length` truncated as a whole, that is `(ptr + 4 length) / 4` truncated. */
  function ReadWords(m: seq<byte>, ptr: int, length: int): (r: seq<int>)
  {
    var len := Words(|m|);
    var start := Clamp(WordIndex(ptr), len);
    var end := Clamp(WordIndex(ptr + 4 * length), len);
    if end <= start then [] else seq(end - start, j requires 0 <= j < end - start => GetWord(m, start + j))
  }

  /** `readInt32Array(ptr, length)` from a word-aligned, non-negative pointer with every
    * word inside the buffer yields exactly the `length` words starting at word `ptr / 4`. */
  lemma ReadWordsInside(m: seq<byte>, ptr: int, length: int)
    requires ptr >= 0 && ptr % 4 == 0 && length >= 0 && ptr / 4 + length <= Words(|m|)
    ensures |ReadWords(m, ptr, length)| == length
    ensures forall j :: 0 <= j < length ==> ReadWords(m, ptr, length)[j] == GetWord(m, ptr / 4 + j)
  {
  }

  /** Truncation applies to the sum, not to `ptr / 4` alone: over four words, from
    * `ptr = -2` the bounds -0.5 and 2.5 become 0 and 2, and with `ptr = 2` and
    * `length = -1` the bounds 0.5 and -0.5 both become 0. */
  lemma ReadWordsTruncatesSum(m: seq<byte>)
    requires |m| == 16
    ensures |ReadWords(m, -2, 3)| == 2 && ReadWords(m, -2, 3) == [GetWord(m, 0), GetWord(m, 1)]
    ensures ReadWords(m, 2, -1) == []
  {
  }

  /** After `PutWords(m, a)` the first `|a|` words that fit hold the elements of `a`. */
  lemma {:induction false} PutWordsHolds(m: seq<byte>, a: seq<int>)
    requires 4 * |a| <= |m|
    ensures forall k, t :: 0 <= k < |a| && 0 <= t < 4 ==> PutWords(m, a)[4 * k + t] == Encode(a[k])[t]
  {
    if a != [] {
      var init := a[..|a| - 1];
      PutWordsHolds(m, init);
      forall k, t | 0 <= k < |a| && 0 <= t < 4
        ensures PutWords(m, a)[4 * k + t] == Encode(a[k])[t]
      {
        if k < |a| - 1 {
          assert a[k] == init[k];
        }
      }
    }
  }

  /** Reading back what `writeInt32Array` stored: `readInt32Array(0, |a|)` after
    * `writeInt32Array(a)` is `a` with each element wrapped to 32 bits, and `a` itself
    * when every element is a 32-bit integer. */
  lemma WriteThenRead(m: seq<byte>, a: seq<int>)
    requires 4 * |a| <= |m|
    ensures |ReadWords(PutWords(m, a), 0, |a|)| == |a|
    ensures forall k :: 0 <= k < |a| ==> ReadWords(PutWords(m, a), 0, |a|)[k] == Wrap32(a[k])
    ensures (forall k :: 0 <= k < |a| ==> IsInt32(a[k])) ==> ReadWords(PutWords(m, a), 0, |a|) == a
  {
    var m' := PutWords(m, a);
    PutWordsHolds(m, a);
    ReadWordsInside(m', 0, |a|);
    forall k | 0 <= k < |a|
      ensures ReadWords(m', 0, |a|)[k] == Wrap32(a[k])
    {
      assert m'[4 * k..4 * k + 4] == Encode(a[k]);
      DecodeEncode(a[k]);
    }
  }

  // ---------------------------------------------------------------------------------
  // Strings over bytes.

  predicate IsAscii(s: string) {
    forall i :: 0 <= i < |s| ==> s[i] as int < 128
  }

  /** `new TextEncoder().encode(data + "\0")` for ASCII text. */
  function EncodeString(data: string): (bs: seq<byte>)
    requires IsAscii(data)
    ensures |bs| == |data| + 1 && bs[|data|] == 0
    ensures forall i :: 0 <= i < |data| ==> bs[i] as int == data[i] as int
  {
    seq(|data|, i requires 0 <= i < |data| => data[i] as int as byte) + [0]
  }

  /** The characters of the non-zero bytes of `bs`, in order. */
  function NonZeroChars(bs: seq<byte>): (s: string)
    ensures |s| <= |bs|
    ensures forall i :: 0 <= i < |s| ==> s[i] != 0 as char
  {
    if bs == [] then []
    else NonZeroChars(bs[..|bs| - 1]) + (if bs[|bs| - 1] != 0 then [bs[|bs| - 1] as int as char] else [])
  }

  /** The bytes of ASCII text carry no zero byte only when the text has no NUL; decoding
    * them gives the text back. */
  lemma {:induction false} NonZeroCharsOfText(data: string)
    requires IsAscii(data) && forall i :: 0 <= i < |data| ==> data[i] != 0 as char
    ensures NonZeroChars(EncodeString(data)) == data
  {
    var bs := EncodeString(data);
    assert bs[..|bs| - 1] == bs[..|data|];
    TextBytes(data, |data|);
  }

  lemma {:induction false} TextBytes(data: string, n: nat)
    requires IsAscii(data) && forall i :: 0 <= i < |data| ==> data[i] != 0 as char
    requires n <= |data|
    ensures NonZeroChars(EncodeString(data)[..n]) == data[..n]
  {
    if n > 0 {
      var bs := EncodeString(data)[..n];
      assert bs[..n - 1] == EncodeString(data)[..n - 1];
      TextBytes(data, n - 1);
      assert bs[n - 1] as int == data[n - 1] as int;
      assert data[..n] == data[..n - 1] + [data[n - 1]];
    }
  }

  // ---------------------------------------------------------------------------------
  // The helper.

  /** `WasmMemoryHelper`: `memory` is the module's buffer. */
  class WasmMemoryHelper {
    const memory: array<byte>

    /** `new WasmMemoryHelper(instance)`, with the buffer the instance exports (or the
      * one made in its place). */
    constructor (buffer: array<byte>)
      ensures memory == buffer
    {
      memory := buffer;
    }

    /** `writeInt32Array(array)`: always at pointer 0. */
    method WriteInt32Array(a: seq<int>) returns (ptr: int)
      modifies memory
      ensures ptr == 0
      ensures memory[..] == PutWords(old(memory[..]), a)
    {
      ptr := 0;
      for i := 0 to |a|
        invariant memory[..] == PutWords(old(memory[..]), a[..i])
      {
        assert a[..i + 1][..i] == a[..i];
        ghost var before := memory[..];
        var k := ptr / 4 + i;
        if k < Words(memory.Length) {
          var bs := Encode(a[i]);
          memory[4 * k] := bs[0];
          memory[4 * k + 1] := bs[1];
          memory[4 * k + 2] := bs[2];
          memory[4 * k + 3] := bs[3];
        }
        assert memory[..] == PutWord(before, i, a[i]);
      }
      assert a[..|a|] == a;
    }

    /** `readString(ptr, length)`: the `Uint8Array` view throws a `RangeError` unless the
      * bytes lie inside the buffer; zero bytes are skipped. */
    method ReadString(ptr: int, length: int) returns (r: Result<string>)
      ensures r.Err? <==> ptr < 0 || length < 0 || ptr + length > memory.Length
      ensures r.Ok? ==> r.value == NonZeroChars(memory[ptr..ptr + length])
      ensures r.Ok? ==> |r.value| <= length && forall i :: 0 <= i < |r.value| ==> r.value[i] != 0 as char
    {
      if ptr < 0 || length < 0 || ptr + length > memory.Length {
        return Err("RangeError");
      }
      var resultStr := "";
      for i := 0 to length
        invariant resultStr == NonZeroChars(memory[ptr..ptr + i])
      {
        assert memory[ptr..ptr + i + 1][..i] == memory[ptr..ptr + i];
        if memory[ptr + i] != 0 {
          resultStr := resultStr + [memory[ptr + i] as int as char];
        }
      }
      r := Ok(resultStr);
    }

    /** `writeString(inputPtr, data)`: throws on a null pointer and when the encoded text
      * and its terminating zero do not fit; otherwise copies them to `inputPtr`. */
    method WriteString(inputPtr: int, data: string) returns (r: Result<int>)
      requires IsAscii(data)
      modifies memory
      ensures inputPtr == 0 ==> r.Err? && memory[..] == old(memory[..])
      ensures inputPtr != 0 && (inputPtr < 0 || inputPtr + |data| + 1 > memory.Length) ==>
        r.Err? && memory[..] == old(memory[..])
      ensures r.Ok? <==> inputPtr > 0 && inputPtr + |data| + 1 <= memory.Length
      ensures r.Ok? ==> r.value == inputPtr
      ensures r.Ok? ==> forall j :: 0 <= j < memory.Length ==>
        memory[j] == if inputPtr <= j < inputPtr + |data| + 1 then EncodeString(data)[j - inputPtr] else old(memory[j])
    {
      if inputPtr == 0 {
        return Err("Failed to allocate memory for input string.");
      }
      var encoded := EncodeString(data);
      if inputPtr < 0 || inputPtr + |encoded| > memory.Length {
        return Err("RangeError");
      }
      for i := 0 to |encoded|
        invariant forall j :: 0 <= j < memory.Length ==>
          memory[j] == if inputPtr <= j < inputPtr + i then encoded[j - inputPtr] else old(memory[j])
      {
        memory[inputPtr + i] := encoded[i];
      }
      r := Ok(inputPtr);
    }
  }

  /** `readString(writeString(ptr, data), |data| + 1)` gives `data` back for ASCII text
    * without NUL characters: `before` and `after` are the buffer around the write. */
  lemma WriteStringThenRead(before: seq<byte>, after: seq<byte>, ptr: nat, data: string)
    requires IsAscii(data) && forall i :: 0 <= i < |data| ==> data[i] != 0 as char
    requires ptr + |data| + 1 <= |before| == |after|
    requires forall j :: 0 <= j < |after| ==>
      after[j] == if ptr <= j < ptr + |data| + 1 then EncodeString(data)[j - ptr] else before[j]
    ensures NonZeroChars(after[ptr..ptr + |data| + 1]) == data
  {
    assert after[ptr..ptr + |data| + 1] == EncodeString(data);
    NonZeroCharsOfText(data);
  }
}
