/** The few pieces of the Java runtime that the store relies on: class objects,
    32-bit `int` arithmetic and `Boolean.toString`. */
module JavaLang {

  /** A class object. Classes are identified by their fully qualified name, which is
      what `Class.getName` returns. `Class.hashCode` is not fixed here: members that
      need it take it as a parameter. */
  datatype JClass = JClass(name: string)

  const LONG := JClass("java.lang.Long")
  const INTEGER := JClass("java.lang.Integer")
  const CLASS := JClass("java.lang.Class")

  /** 2^32, the modulus of Java `int` arithmetic. */
  const TWO_32: int := 0x1_0000_0000

  /** Java's `int`. */
  newtype Int32 = x: int | -0x8000_0000 <= x < 0x8000_0000

  /** The `int` that Java keeps of an exact result: the unique value in range that
      is congruent to it modulo 2^32. */
  function Wrap(x: int): (r: Int32)
    ensures (r as int - x) % TWO_32 == 0
    ensures -0x8000_0000 <= x < 0x8000_0000 ==> r as int == x
  {
    var m := x % TWO_32;
    if m < 0x8000_0000 then m as Int32 else (m - TWO_32) as Int32
  }

  /** Java `int` addition, which wraps around. */
  function Add(a: Int32, b: Int32): Int32 {
    Wrap(a as int + b as int)
  }

  /** Java `int` multiplication, which wraps around. */
  function Mul(a: Int32, b: Int32): Int32 {
    Wrap(a as int * b as int)
  }

  /** Two `int`s that agree modulo 2^32 are the same `int`. */
  lemma CongruentInt32Equal(a: Int32, b: Int32)
    requires (a as int - b as int) % TWO_32 == 0
    ensures a == b
  {
    var d := a as int - b as int;
    assert -TWO_32 < d < TWO_32;
    var q := d / TWO_32;
    assert d == q * TWO_32;
  }

  /** Congruence modulo 2^32 is kept by scaling. */
  lemma CongruentScale(a: int, b: int, k: int)
    requires (a - b) % TWO_32 == 0
    ensures (k * a - k * b) % TWO_32 == 0
  {
    var q := (a - b) / TWO_32;
    assert a - b == q * TWO_32;
    assert k * a - k * b == (k * q) * TWO_32;
  }

  /** Congruence modulo 2^32 is transitive. */
  lemma CongruentTrans(a: int, b: int, c: int)
    requires (a - b) % TWO_32 == 0 && (b - c) % TWO_32 == 0
    ensures (a - c) % TWO_32 == 0
  {
    var q1, q2 := (a - b) / TWO_32, (b - c) / TWO_32;
    assert a - b == q1 * TWO_32;
    assert b - c == q2 * TWO_32;
    assert a - c == (q1 + q2) * TWO_32;
  }

  /** `Boolean.toString`. */
  function BooleanToString(b: bool): string {
    if b then "true" else "false"
  }
}
