/** `at::Scalar`: a number that is a double, a 64-bit integer, or a
    reference to a zero-dimensional tensor, with constructors from every
    element type, localisation of the tensor-backed case, kind queries, and
    extraction accessors that refuse any conversion that loses the value. */
module ATenScalar {
  import opened ScalarTypes

  /** The tensor implementation a tensor-backed scalar refers to. Nothing
      about it is modelled here except through `Runtime.localScalar`. */
  class TensorImpl {
  }

  /** The tagged union: the constructor is the tag (`HAS_d`, `HAS_i`,
      `HAS_t`) and its one field is the active member of the union. */
  datatype Scalar = HasD(d: FloatBits) | HasI(i: int64) | HasT(t: TensorImpl)

  /** A scalar that is guaranteed not to be backed by a tensor. */
  type LocalScalar = s: Scalar | !s.HasT? witness HasI(0)

  /** `std::domain_error` from a failed round-trip check, naming the target
      type; `std::runtime_error` from `to<T>()` for a type with no accessor. */
  datatype Error = DomainError(target: ScalarType) | UnexpectedType

  datatype Result<T> = Ok(value: T) | Err(error: Error)

  /** What the scalar relies on and cannot see: the tensor's own
      localisation, and the `convert` instantiations and the `!=` on
      `double` that the floating-point paths use. The integral-to-integral
      conversions are not here: they are `StaticCast` and the identity. */
  datatype Runtime = Runtime(
    localScalar: TensorImpl -> LocalScalar,        // TensorImpl::localScalar()
    fromDouble: (ScalarType, FloatBits) -> Value,  // convert<T,double>
    toDouble: (ScalarType, Value) -> FloatBits,    // convert<double,T>
    fromInt64: (ScalarType, int64) -> FloatBits,   // convert<T,int64_t>, T floating
    toInt64: (ScalarType, FloatBits) -> int,       // convert<int64_t,T>, T floating
    doubleNe: (FloatBits, FloatBits) -> bool)      // operator!= on double

  /** Every floating-point conversion into a type yields a value of that type. */
  ghost predicate WellTyped(rt: Runtime) {
    forall T: ScalarType, d: FloatBits :: OfType(rt.fromDouble(T, d), T)
  }

  // ---------------------------------------------------------------------
  // Kind queries

  /** The discriminant of the union, `enum class Tag`. */
  datatype Tag = HAS_d | HAS_i | HAS_t

  function TagOf(s: Scalar): Tag {
    match s
    case HasD(_) => HAS_d
    case HasI(_) => HAS_i
    case HasT(_) => HAS_t
  }

  /** `isFloatingPoint()`: the tag is `HAS_d`, so the `double` member is active. */
  predicate IsFloatingPoint(s: Scalar)
    ensures IsFloatingPoint(s) <==> s.HasD?
  {
    TagOf(s) == HAS_d
  }

  /** `isIntegral()`: the tag is `HAS_i`, so the `int64_t` member is active. */
  predicate IsIntegral(s: Scalar)
    ensures IsIntegral(s) <==> s.HasI?
  {
    TagOf(s) == HAS_i
  }

  /** `isBackedByTensor()`: the tag is `HAS_t`, so the tensor pointer is active. */
  predicate IsBackedByTensor(s: Scalar)
    ensures IsBackedByTensor(s) <==> s.HasT?
  {
    TagOf(s) == HAS_t
  }

  /** Exactly one of the three kind queries holds of every scalar. */
  lemma KindsPartition(s: Scalar)
    ensures IsFloatingPoint(s) || IsIntegral(s) || IsBackedByTensor(s)
    ensures !(IsFloatingPoint(s) && IsIntegral(s))
    ensures !(IsFloatingPoint(s) && IsBackedByTensor(s))
    ensures !(IsIntegral(s) && IsBackedByTensor(s))
  {
  }

  // ---------------------------------------------------------------------
  // Constructors

  /** `Scalar()`: the integral zero. */
  function Default(): (s: Scalar)
    ensures IsIntegral(s) && s.i == 0
  {
    HasI(0)
  }

  /** The implicit constructor from a value `v` of element type `T`: an
      integral value is widened into the `int64_t` slot unchanged; a
      floating one is converted to `double` and stored in the `double` slot. */
  function FromValue(T: ScalarType, v: Value, rt: Runtime): (s: Scalar)
    requires OfType(v, T)
    ensures !IsBackedByTensor(s)
    ensures IsIntegral(s) <==> IsIntegralType(T)
    ensures IsIntegral(s) ==> s.i == v.i
    ensures IsFloatingPoint(s) ==> s.d == rt.toDouble(T, v)
  {
    if IsIntegralType(T) then HasI(v.i) else HasD(rt.toDouble(T, v))
  }

  // ---------------------------------------------------------------------
  // Localisation

  /** `local()`: the scalar itself when it is not tensor-backed, otherwise
      what the tensor produces, which is never tensor-backed. */
  function Local(s: Scalar, rt: Runtime): (r: LocalScalar)
    ensures !IsBackedByTensor(s) ==> r == s
    ensures IsBackedByTensor(s) ==> r == rt.localScalar(s.t)
  {
    if s.HasT? then rt.localScalar(s.t) else s
  }

  /** Localising twice is localising once. */
  lemma LocalIdempotent(s: Scalar, rt: Runtime)
    ensures Local(Local(s, rt), rt) == Local(s, rt)
  {
  }

  // ---------------------------------------------------------------------
  // Checked extraction

  /** What a successful extraction of `v` from the non-tensor scalar `s`
      guarantees: converting `v` back to the type of the stored value gives
      the stored value (as `!=` on `double` judges it, for the double slot). */
  predicate RoundTrips(s: LocalScalar, T: ScalarType, v: Value, rt: Runtime) {
    match s
    case HasD(d) => !rt.doubleNe(rt.toDouble(T, v), d)
    case HasI(i) =>
      if IsIntegralType(T) then v == Integral(i)
      else v.Floating? && rt.toInt64(T, v.bits) == i
  }

  /** `toName()` for element type `T`. A tensor-backed scalar is localised
      first. Otherwise the stored value is narrowed to `T` and widened back,
      and the narrowed value is returned only if that gives the stored value;
      if not, the result is a domain error, never a truncated value. */
  function ToName(s: Scalar, T: ScalarType, rt: Runtime): (r: Result<Value>)
    decreases if s.HasT? then 1 else 0
    ensures r.Err? ==> r.error == DomainError(T)
    ensures r.Ok? ==> RoundTrips(Local(s, rt), T, r.value, rt)
    ensures WellTyped(rt) && r.Ok? ==> OfType(r.value, T)
    // The key theorem: an integral scalar converts to an integral type
    // exactly when the stored int64 lies in the type's range, and then
    // the result is the stored value.
    ensures IsIntegralType(T) && IsIntegral(Local(s, rt)) ==>
              (r.Ok? <==> InRange(RangeOf(T), Local(s, rt).i)) &&
              (r.Ok? ==> r.value == Integral(Local(s, rt).i))
  {
    match s
    case HasT(t) =>
      ToName(Local(s, rt), T, rt)
    case HasD(d) =>
      var casted := rt.fromDouble(T, d);
      if rt.doubleNe(rt.toDouble(T, casted), d) then Err(DomainError(T)) else Ok(casted)
    case HasI(i) =>
      if IsIntegralType(T) then
        var w := RangeOf(T);
        StaticCastIsExact(w);
        CheckedNarrowIff(w, StaticCast(w), y => y, i);
        match CheckedNarrow(StaticCast(w), y => y, i)
        case Some(casted) => Ok(Integral(casted))
        case None => Err(DomainError(T))
      else
        var casted := rt.fromInt64(T, i);
        if rt.toInt64(T, casted) != i then Err(DomainError(T)) else Ok(Floating(casted))
  }

  /** A tensor-backed scalar extracts exactly as its localisation does, and
      the localisation is not tensor-backed, so the deferral happens once. */
  lemma TensorBackedDefersToLocal(s: Scalar, T: ScalarType, rt: Runtime)
    requires IsBackedByTensor(s)
    ensures ToName(s, T, rt) == ToName(Local(s, rt), T, rt)
    ensures !IsBackedByTensor(Local(s, rt))
  {
  }

  /** Round trip through construction: a value of an integral element type,
      stored by its constructor, comes back unchanged from that type's
      accessor. */
  lemma FromValueToNameIntegral(T: ScalarType, v: Value, rt: Runtime)
    requires IsIntegralType(T) && OfType(v, T)
    ensures IsIntegral(FromValue(T, v, rt))
    ensures ToName(FromValue(T, v, rt), T, rt) == Ok(v)
  {
  }

  /** The floating-point counterpart, under the two things the model cannot
      see: converting the stored `double` back to `T` recovers `v`, and that
      `double` compares equal to itself (it is not a NaN). */
  lemma FromValueToNameFloating(T: ScalarType, v: Value, rt: Runtime)
    requires !IsIntegralType(T) && OfType(v, T)
    requires rt.fromDouble(T, rt.toDouble(T, v)) == v
    requires !rt.doubleNe(rt.toDouble(T, v), rt.toDouble(T, v))
    ensures IsFloatingPoint(FromValue(T, v, rt))
    ensures ToName(FromValue(T, v, rt), T, rt) == Ok(v)
  {
  }

  /** Concrete refusals of the integral check: 300 and -1 are not `uint8_t`
      values (wrap-around would give 44 and 255). */
  lemma ByteRefusals(rt: Runtime)
    ensures ToName(HasI(300), Byte, rt) == Err(DomainError(Byte))
    ensures ToName(HasI(-1), Byte, rt) == Err(DomainError(Byte))
  {
  }

  /** A concrete acceptance: -128 is the least `int8_t`. */
  lemma CharAcceptsMinimum(rt: Runtime)
    ensures ToName(HasI(-128), Char, rt) == Ok(Integral(-128))
  {
  }

  /** Every `int64_t` extracts unchanged as a `Long`. */
  lemma LongAcceptsEverything(rt: Runtime, x: int64)
    ensures ToName(HasI(x), Long, rt) == Ok(Integral(x))
  {
  }

  // ---------------------------------------------------------------------
  // The generic accessor

  /** A C++ type `to<T>()` may be instantiated with: one of the element
      types, or any other type. */
  datatype CppType = Element(T: ScalarType) | Other

  /** `to<T>()`: the accessor of element type `T`, and a runtime error for
      any type that is not an element type. */
  function To(s: Scalar, target: CppType, rt: Runtime): (r: Result<Value>)
    ensures target.Element? ==> r == ToName(s, target.T, rt)
    ensures target.Other? ==> r == Err(UnexpectedType)
  {
    match target
    case Element(T) => ToName(s, T, rt)
    case Other => Err(UnexpectedType)
  }
}
