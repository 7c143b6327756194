/** Fixed-width integers of the firmware and the small vocabulary every module shares. */
module Common {

  type u8 = x: int | 0 <= x < 0x100
  type u16 = x: int | 0 <= x < 0x1_0000
  type u32 = x: int | 0 <= x < 0x1_0000_0000
  type i16 = x: int | -0x8000 <= x < 0x8000
  type i32 = x: int | -0x8000_0000 <= x < 0x8000_0000

  const TWO_TO_THE_16: int := 0x1_0000
  const TWO_TO_THE_31: int := 0x8000_0000
  const TWO_TO_THE_32: int := 0x1_0000_0000

  datatype Option<+T> = None | Some(value: T)

  /** The value a `uint32_t` holds after unsigned arithmetic produced `x`. */
  function Wrap32(x: int): u32 {
    x % TWO_TO_THE_32
  }

  /** `static_cast<int16_t>` of a 32-bit value: the low sixteen bits, read as two's complement. */
  function ToInt16(x: i32): i16 {
    var low := x % TWO_TO_THE_16;
    if low < 0x8000 then low else low - TWO_TO_THE_16
  }

  lemma Regroup<T>(a: seq<T>, b: seq<T>, c: seq<T>)
    ensures a + (b + c) == a + b + c
  {
  }

  /** Clamps `x` to `[lo, hi]`. */
  function Clamp(x: int, lo: int, hi: int): int
    requires lo <= hi
  {
    if x <= lo then lo else if x >= hi then hi else x
  }

  /** Bit `k` (0, 1 or 2) of the two's complement representation of `x`. */
  predicate Bit0(x: i32) { x % 2 == 1 }
  predicate Bit1(x: i32) { (x / 2) % 2 == 1 }
  predicate Bit2(x: i32) { (x / 4) % 2 == 1 }
}

/** Cardinality facts used by every counting argument. */
module Counting {

  ghost function Range(n: nat): (s: set<int>)
    ensures forall i :: i in s <==> 0 <= i < n
    ensures |s| == n
  {
    if n == 0 then {} else Range(n - 1) + {n - 1}
  }

  lemma {:induction false} SubsetSize<T>(a: set<T>, b: set<T>)
    requires a <= b
    ensures |a| <= |b|
  {
    if a != {} {
      var x :| x in a;
      SubsetSize(a - {x}, b - {x});
    }
  }
}
