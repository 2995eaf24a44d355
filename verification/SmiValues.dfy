/** The 32-bit values of libsmi and their comparison, `compareValues`. */
module SmiValues {

  const TWO31 := 0x8000_0000
  const TWO32 := 0x1_0000_0000

  type Word = w: int | 0 <= w < TWO32

  /** The base types that a range-restricted type can have here.  `Unknown` is the base type of
      a type that is referenced before it is defined. */
  datatype BaseType = Integer32 | Unsigned32 | OctetString | Unknown

  /** A tagged 32-bit union member: the tag says how the stored bits are read. */
  datatype Value = Value(base: BaseType, bits: Word)

  function Signed(w: Word): int {
    if w < TWO31 then w else w - TWO32
  }

  /** The number that a value stands for. */
  function Number(v: Value): int {
    if v.base.Integer32? then Signed(v.bits) else v.bits
  }

  predicate Is32(v: Value) {
    v.base.Integer32? || v.base.Unsigned32?
  }

  /** Conversion of an arithmetic result to C's 32-bit `int`. */
  function ToInt32(x: int): int {
    (x + TWO31) % TWO32 - TWO31
  }

  /** What the header comment of `compareValues` promises about the result for a distance `d`. */
  predicate Classifies(c: int, d: int) {
    && (c == 0 <==> d == 0)
    && (c == 1 <==> d == 1)
    && (c == -1 <==> d == -1)
    && (c >= 2 <==> d >= 2)
    && (c <= -2 <==> d <= -2)
  }

  /** `compareValues`, branch by branch, with the wrap-around of the C subtractions. */
  function CompareValues(a: Value, b: Value): (c: int)
    ensures a.base == b.base && Is32(a) ==> Classifies(c, Number(a) - Number(b))
  {
    if a.base == b.base && Is32(a) then
      var x, y := Number(a), Number(b);
      if x == y then 0
      else if x > y then (if x == y + 1 then 1 else 2)
      else (if x + 1 == y then -1 else -2)
    else if a.base.Unsigned32? && b.base.Integer32? then
      if Signed(b.bits) < -1 || (a.bits > 1 && a.bits - 1 > 2147483647) then 2
      else ToInt32(a.bits - Signed(b.bits))
    else if a.base.Integer32? && b.base.Unsigned32? then
      if Signed(a.bits) < -1 || (b.bits > 1 && b.bits - 1 > 2147483647) then -2
      else ToInt32(b.bits - Signed(a.bits))
    else 0
  }

  /** The result has the sign of the distance. */
  predicate SignRight(c: int, d: int) {
    (c > 0 <==> d > 0) && (c < 0 <==> d < 0)
  }

  /** Exactly when comparing an unsigned with a signed value gives the right sign: the
      difference must fit a signed word unless an early return applies. */
  lemma UnsignedSignedExact(a: Value, b: Value)
    requires a.base.Unsigned32? && b.base.Integer32?
    ensures SignRight(CompareValues(a, b), Number(a) - Number(b))
       <==> Number(b) < -1 || Number(a) > TWO31 || Number(a) - Number(b) < TWO31
  {
  }

  /** Exactly when comparing a signed with an unsigned value gives the right sign.  The
      difference is taken the wrong way round, so apart from the early return only equal
      values, and distances that wrap, come out right. */
  lemma SignedUnsignedExact(a: Value, b: Value)
    requires a.base.Integer32? && b.base.Unsigned32?
    ensures SignRight(CompareValues(a, b), Number(a) - Number(b))
       <==> Number(a) < -1 || Number(b) > TWO31 || Number(a) == Number(b)
            || Number(b) - Number(a) >= TWO31
  {
  }

  /** The condition under which the comparison of two values has the right sign. */
  predicate ComparesRight(a: Value, b: Value)
    requires Is32(a) && Is32(b)
  {
    if a.base == b.base then true
    else if a.base.Unsigned32? then Number(b) < -1 || Number(a) > TWO31 || Number(a) - Number(b) < TWO31
    else Number(a) < -1 || Number(b) > TWO31 || Number(a) == Number(b) || Number(b) - Number(a) >= TWO31
  }

  /** What any two 32-bit values compare as: zero exactly when their numbers are equal, and otherwise the
      sign of the distance, or the opposite sign when the condition fails. */
  lemma CompareExactly(a: Value, b: Value)
    requires Is32(a) && Is32(b)
    ensures var c, d := CompareValues(a, b), Number(a) - Number(b);
      && (c == 0 <==> d == 0)
      && (c > 0 <==> if ComparesRight(a, b) then d > 0 else d < 0)
      && (SignRight(c, d) <==> ComparesRight(a, b)) && (Classifies(c, d) <==> ComparesRight(a, b))
  {
    if a.base.Unsigned32? && b.base.Integer32? {
      UnsignedSignedExact(a, b);
    } else if a.base.Integer32? && b.base.Unsigned32? {
      SignedUnsignedExact(a, b);
    }
  }
}
