/**
 * Lua values as table keys and contents: src/core/value.hpp, with floating point
 * reduced to what a table can observe of a number.
 */
module LuaValue {

  datatype Option<+T> = None | Some(value: T)

  /** A double is a whole number (0 and -0 being equal, they are one value), another
      ordinary double, or a NaN. */
  datatype Number = Integral(i: int) | Fractional(tag: int) | NaN

  /** Strings are interned, so equal content is the same object (see module StringPool)
      and a string value is its content; every other collectable object is its identity. */
  datatype Value =
    | Nil
    | Boolean(b: bool)
    | Num(n: Number)
    | Str(s: string)
    | Object(id: nat)

  const I32_MAX: int := 0x7FFF_FFFF
  const USIZE_MAX: int := 0xFFFF_FFFF_FFFF_FFFF

  function IntKey(i: int): Value {
    Num(Integral(i))
  }

  /** `Value::operator==`: a NaN equals nothing, itself included. */
  predicate RawEqual(a: Value, b: Value) {
    a == b && a != Num(NaN)
  }

  /** The keys `Table::set` accepts. */
  predicate IsTableKey(k: Value) {
    k != Nil && k != Num(NaN)
  }

  /** `Table::isPositiveIntegerKey`, src/core/table.cpp:489. */
  predicate IsArrayKey(k: Value) {
    k.Num? && k.n.Integral? && 1 <= k.n.i <= I32_MAX
  }
}
