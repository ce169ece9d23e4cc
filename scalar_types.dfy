/** The element types a scalar converts to and from, and the integral
    narrowing discipline used by the checked accessors of `at::Scalar`.

    The list of element types and the conversion template `convert<To,From>`
    live in ATen/ScalarType.h and ATen/Half.h, which are not part of this
    model: the list is written out below as an assumption, and each integral
    type is described only by the closed range of values it holds. */
module ScalarTypes {

  const INT64_MIN: int := -0x8000_0000_0000_0000
  const INT64_MAX: int := 0x7FFF_FFFF_FFFF_FFFF

  /** `int64_t`, the integral slot of the scalar's union. */
  type int64 = x: int | INT64_MIN <= x <= INT64_MAX

  /** A floating-point value as its IEEE-754 bit pattern (a `double`, or a
      narrower format zero-extended). Its arithmetic and its comparison are
      never interpreted here: they are supplied by the runtime. */
  type FloatBits = bv64

  datatype Option<T> = None | Some(value: T)

  /** The element types for which the scalar has a constructor, a `toName()`
      accessor and a `to<T>()` specialisation, by their ATen names. */
  datatype ScalarType = Byte | Char | Double | Float | Int | Long | Short | Half

  /** True for the types whose constructor fills the `int64_t` slot of the
      union; the others (`double`, `float`, `Half`) fill the `double` slot. */
  predicate IsIntegralType(T: ScalarType) {
    T.Byte? || T.Char? || T.Int? || T.Long? || T.Short?
  }

  /** A closed, non-empty interval of integers: the values of one integral C type. */
  datatype Bounds = Bounds(lo: int, hi: int)
  type IntRange = b: Bounds | b.lo <= b.hi witness Bounds(0, 0)

  predicate InRange(w: IntRange, x: int) {
    w.lo <= x <= w.hi
  }

  /** The range of each integral element type: `uint8_t`, `int8_t`, `int16_t`,
      `int` (32 bits on every platform ATen supports) and `int64_t`. Every
      one lies inside the range of `int64_t`, which is what makes widening a
      narrowed value back to `int64_t` preserve it. */
  function RangeOf(T: ScalarType): (w: IntRange)
    requires IsIntegralType(T)
    ensures INT64_MIN <= w.lo <= 0 < w.hi <= INT64_MAX
    ensures T.Long? ==> w == Bounds(INT64_MIN, INT64_MAX)
  {
    match T
    case Byte => Bounds(0, 0xFF)
    case Char => Bounds(-0x80, 0x7F)
    case Short => Bounds(-0x8000, 0x7FFF)
    case Int => Bounds(-0x8000_0000, 0x7FFF_FFFF)
    case Long => Bounds(INT64_MIN, INT64_MAX)
  }

  /** A value of an element type: an integer for the integral types, a bit
      pattern for the floating ones. */
  datatype Value = Integral(i: int) | Floating(bits: FloatBits)

  /** `v` is a value the C type named by `T` can hold. */
  predicate OfType(v: Value, T: ScalarType) {
    if IsIntegralType(T) then v.Integral? && InRange(RangeOf(T), v.i) else v.Floating?
  }

  /** Narrowing an integer to a type of range `w` by two's-complement
      wrap-around, which is what `static_cast` does from `int64_t` to each
      integral element type: the result is the one value of the range that
      is congruent to `x` modulo the size of the range. */
  function Wrap(w: IntRange, x: int): (r: int)
    ensures InRange(w, r)
    ensures InRange(w, x) ==> r == x
    // `x` and `r` differ by a whole multiple of the size of the range
    ensures x - r == ((x - w.lo) / (w.hi - w.lo + 1)) * (w.hi - w.lo + 1)
  {
    var n := w.hi - w.lo + 1;
    ModOfSmall(x - w.lo, n);
    w.lo + (x - w.lo) % n
  }

  /** A remainder by `n` leaves every number below `n` unchanged. */
  lemma ModOfSmall(a: int, n: int)
    requires n > 0
    ensures 0 <= a < n ==> a % n == a
  {
    assert a == (a / n) * n + a % n;
    if 0 <= a < n && a / n > 0 {
      ProductAtLeast(a / n, n);
    } else if 0 <= a < n && a / n < 0 {
      ProductAtLeast(-(a / n), n);
    }
  }

  lemma ProductAtLeast(q: int, n: int)
    requires q >= 1 && n >= 0
    ensures q * n >= n
  {
  }

  /** `convert<T,int64_t>` for an integral T of range `w`. */
  function StaticCast(w: IntRange): (narrow: int64 -> int)
    ensures forall x: int64 :: InRange(w, narrow(x))
    ensures forall x: int64 :: InRange(w, x) ==> narrow(x) == x
  {
    x => Wrap(w, x)
  }

  /** The accessor's check on an `int64_t` source: narrow `v` to the target,
      widen the result back, and accept the narrowed value only if widening
      gives `v` again. `narrow` and `widen` stand for the two `convert`
      instantiations, whatever they do. */
  function CheckedNarrow(narrow: int64 -> int, widen: int -> int, v: int64): (r: Option<int>)
    ensures r.Some? ==> widen(r.value) == v
    ensures r.None? ==> widen(narrow(v)) != v
  {
    var casted := narrow(v);
    if widen(casted) != v then None else Some(casted)
  }

  /** Narrowing always yields a value of the target type. */
  ghost predicate NarrowsInto(w: IntRange, narrow: int64 -> int) {
    forall x: int64 :: InRange(w, narrow(x))
  }

  /** Widening a value of the target type back to `int64_t` preserves it. */
  ghost predicate WidensExactly(w: IntRange, widen: int -> int) {
    forall y :: InRange(w, y) ==> widen(y) == y
  }

  /** Narrowing a value the target can represent preserves it. */
  ghost predicate NarrowsExactly(w: IntRange, narrow: int64 -> int) {
    forall x: int64 :: InRange(w, x) ==> narrow(x) == x
  }

  /** Whatever the narrowing does, as long as it lands in the target type and
      widening back is exact, a passing check means the source was in range
      and the narrowed value is the source itself. */
  lemma CheckedNarrowSound(w: IntRange, narrow: int64 -> int, widen: int -> int, v: int64)
    requires NarrowsInto(w, narrow) && WidensExactly(w, widen)
    ensures CheckedNarrow(narrow, widen, v).Some? ==>
              InRange(w, v) && CheckedNarrow(narrow, widen, v).value == v
  {
    assert InRange(w, narrow(v));
  }

  /** Conversely, when narrowing preserves representable values, every source
      in range passes the check. */
  lemma CheckedNarrowComplete(w: IntRange, narrow: int64 -> int, widen: int -> int, v: int64)
    requires NarrowsExactly(w, narrow) && WidensExactly(w, widen)
    ensures InRange(w, v) ==> CheckedNarrow(narrow, widen, v) == Some(v)
  {
  }

  /** The key theorem in its general form: the check passes exactly when the
      source lies in the target's range, and then returns the source. */
  lemma CheckedNarrowIff(w: IntRange, narrow: int64 -> int, widen: int -> int, v: int64)
    requires NarrowsInto(w, narrow) && NarrowsExactly(w, narrow) && WidensExactly(w, widen)
    ensures CheckedNarrow(narrow, widen, v).Some? <==> InRange(w, v)
    ensures InRange(w, v) ==> CheckedNarrow(narrow, widen, v).value == v
  {
    CheckedNarrowSound(w, narrow, widen, v);
    CheckedNarrowComplete(w, narrow, widen, v);
  }

  /** Two's-complement narrowing with identity widening meets all three
      assumptions, for every range. */
  lemma StaticCastIsExact(w: IntRange)
    ensures NarrowsInto(w, StaticCast(w))
    ensures NarrowsExactly(w, StaticCast(w))
    ensures WidensExactly(w, y => y)
  {
  }
}
