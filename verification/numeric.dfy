/** Kotlin's fixed-width integer behaviour, written out over unbounded integers:
    `coerceIn`, the wrap-around of `Long` arithmetic and of `Long.toInt()`, and
    `Long` division, which truncates toward zero. */
module Numeric {

  import opened Text

  const IntMin: int := -0x8000_0000
  const IntMax: int := 0x7FFF_FFFF

  /** Kotlin's `coerceIn(lo, hi)`; Kotlin throws when `lo > hi`, which no caller here does. */
  function CoerceIn(x: int, lo: int, hi: int): (r: int)
    requires lo <= hi
    ensures lo <= r <= hi
    ensures lo <= x <= hi ==> r == x
    ensures x < lo ==> r == lo
    ensures x > hi ==> r == hi
  {
    if x < lo then lo else if x > hi then hi else x
  }

  /** `Long.toInt()`: keeps the low 32 bits, read as two's complement. */
  function ToInt32(x: int): (r: int)
    ensures IntMin <= r <= IntMax
    ensures (x - r) % 0x1_0000_0000 == 0
    ensures IntMin <= x <= IntMax ==> r == x
  {
    var m := x % 0x1_0000_0000;
    if m > IntMax then m - 0x1_0000_0000 else m
  }

  /** A `Long` arithmetic result: keeps the low 64 bits, read as two's complement. */
  function ToLong(x: int): (r: int)
    ensures LongMin <= r <= LongMax
    ensures (x - r) % 0x1_0000_0000_0000_0000 == 0
    ensures LongMin <= x <= LongMax ==> r == x
  {
    var m := x % 0x1_0000_0000_0000_0000;
    if m > LongMax then m - 0x1_0000_0000_0000_0000 else m
  }

  function Abs(x: int): nat {
    if x < 0 then -x else x
  }

  /** Kotlin's integer `/`: the quotient rounded toward zero. */
  function TruncDiv(a: int, b: int): (q: int)
    requires b != 0
    ensures Abs(q) == Abs(a) / Abs(b)
    ensures q > 0 ==> (a > 0) == (b > 0)
    ensures q < 0 ==> (a > 0) != (b > 0)
    ensures a >= 0 && b > 0 ==> q == a / b
  {
    var m := Abs(a) / Abs(b);
    assert Abs(a) == 0 ==> m == 0;
    if (a < 0) == (b < 0) then m else -m
  }
}
