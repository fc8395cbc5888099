/** Machine integers and the saturation helpers of the CMSIS-DSP header.

    All values are mathematical integers held in ranges; every C conversion that can drop bits is
    written out with `ToU32`, `ToQ31` or `ToQ15`.  A right shift of a signed value rounds towards
    minus infinity, which is what Dafny's `/` does for a positive divisor. */
module FixedPoint {

  const TWO15: int := 0x8000
  const TWO16: int := 0x1_0000
  const TWO20: int := 0x10_0000
  const TWO24: int := 0x100_0000
  const TWO30: int := 0x4000_0000
  const TWO31: int := 0x8000_0000
  const TWO32: int := 0x1_0000_0000
  const TWO61: int := 0x2000_0000_0000_0000
  const TWO63: int := 0x8000_0000_0000_0000

  type q7 = x: int | -0x80 <= x < 0x80
  type q15 = x: int | -TWO15 <= x < TWO15
  type q31 = x: int | -TWO31 <= x < TWO31
  type q63 = x: int | -TWO63 <= x < TWO63
  type u16 = x: int | 0 <= x < TWO16
  type u32 = x: int | 0 <= x < TWO32

  function ToU32(x: int): u32 {
    x % TWO32
  }

  function ToQ31(x: int): q31 {
    var u := x % TWO32;
    if u >= TWO31 then u - TWO32 else u
  }

  function ToQ15(x: int): q15 {
    var u := x % TWO16;
    if u >= TWO15 then u - TWO16 else u
  }

  function ToQ7(x: int): q7 {
    var u := x % 0x100;
    if u >= 0x80 then u - 0x100 else u
  }

  /** Each conversion keeps the value modulo its width; with the range of its type that determines it. */
  lemma ConversionsWrap(x: int)
    ensures ToQ31(x) == x % TWO32 || ToQ31(x) == x % TWO32 - TWO32
    ensures ToQ15(x) == x % TWO16 || ToQ15(x) == x % TWO16 - TWO16
    ensures ToQ7(x) == x % 0x100 || ToQ7(x) == x % 0x100 - 0x100
  {}

  lemma RangeIsUnchanged(x: int)
    ensures -TWO31 <= x < TWO31 ==> ToQ31(x) == x
    ensures -TWO15 <= x < TWO15 ==> ToQ15(x) == x
    ensures -0x80 <= x < 0x80 ==> ToQ7(x) == x
  {}

  function Min(x: int, y: int): int {
    if x <= y then x else y
  }

  function Max(x: int, y: int): int {
    if x <= y then y else x
  }

  function Clamp(x: int, lo: int, hi: int): int
    requires lo <= hi
  {
    if x < lo then lo else if x > hi then hi else x
  }

  function Clamp15(x: int): q15 {
    Clamp(x, -TWO15, TWO15 - 1)
  }

  function Clamp31(x: int): q31 {
    Clamp(x, -TWO31, TWO31 - 1)
  }

  /** A clamp is the value itself inside the range, and the nearest end outside it. */
  lemma ClampIsNearest(x: int)
    ensures -TWO31 <= x < TWO31 ==> Clamp31(x) == x
    ensures x < -TWO31 ==> Clamp31(x) == -TWO31
    ensures x >= TWO31 ==> Clamp31(x) == TWO31 - 1
    ensures -TWO15 <= x < TWO15 ==> Clamp15(x) == x
    ensures x < -TWO15 ==> Clamp15(x) == -TWO15
    ensures x >= TWO15 ==> Clamp15(x) == TWO15 - 1
  {}

  /** `clip_q63_to_q31`: compares the upper word with the sign of the lower word.  The exclusive-or of
      0x7FFFFFFF with the replicated sign is one of the two ends of the q31 range.  It is a true
      clamp for every 64-bit argument. */
  function ClipQ63ToQ31(x: q63): (r: q31)
    ensures r == Clamp31(x)
  {
    if ToQ31(x / TWO32) != ToQ31(x) / TWO31
    then if x < 0 then -TWO31 else TWO31 - 1
    else ToQ31(x)
  }

  /** `__QADD` */
  function QAdd(x: q31, y: q31): (r: q31)
    ensures r == Clamp31(x + y)
  {
    ClipQ63ToQ31(x + y)
  }

  /** `__QSUB` */
  function QSub(x: q31, y: q31): (r: q31)
    ensures r == Clamp31(x - y)
  {
    ClipQ63ToQ31(x - y)
  }

  /** `__SSAT(val, 16)` */
  function Ssat16(val: q31): (r: q15)
    ensures r == Clamp15(val)
  {
    var max := TWO15 - 1;
    var min := -1 - max;
    if val > max then max else if val < min then min else val
  }
}
