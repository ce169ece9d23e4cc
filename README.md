# at::Scalar in Dafny

This project models `at::Scalar` from ATen, the tensor library under PyTorch.
A `Scalar` is "a number" that operations take as an operand. It is a closed
tagged union with three tags:

- `HAS_d`: a `double`.
- `HAS_i`: an `int64_t`.
- `HAS_t`: a pointer to a zero-dimensional tensor.

The class offers four groups of members:

- An implicit constructor per element type. The default constructor gives
  integral zero.
- `local()`, which turns a tensor-backed scalar into a plain number.
- One checked accessor `toName()` per element type, and the generic
  `to<T>()` that dispatches to them.
- Three kind queries.

The accessors `toName()`, `local()` and the three kind queries are `const`.
`to<T>()` is not declared `const` (lines 86 and 112), but it only calls the
`const` `toName()`. Nothing modelled here changes the scalar, so the model
is purely functional:

- `Scalar` is a `datatype`. Its constructor fixes the tag (`TagOf` gives the
  `Tag` itself), and its one field is the active member of the union.
- Each member is a function over that value.
- Lemmas state what the class promises.

Two modules:

- `ScalarTypes` (scalar_types.dfy) holds the following:
  - `int64`.
  - The element-type list.
  - The range of each integral type.
  - Two's-complement narrowing (`Wrap`, which is what `static_cast` does
    from `int64_t`).
  - The round-trip check of the integral branch, stated for any narrowing
    and widening functions, with the theorem that it passes exactly on
    in-range values.
- `ATenScalar` (scalar.dfy) holds the following:
  - The `Scalar` datatype.
  - An opaque `TensorImpl` class.
  - The constructors, `Local`, `ToName`, `To`, the kind queries, and the
    lemmas about them.

What the file uses but does not define is passed in as parameters, either
as a `Runtime` value or stated as predicates:

- `TensorImpl::localScalar()` is a field of type `TensorImpl -> LocalScalar`.
  `LocalScalar` is the subset of scalars that are not tensor-backed, so the
  promise in the comment at line 52 is carried by the type.
- The floating-point `convert<To,From>` instantiations and `operator!=` on
  `double` are fields of `Runtime`. They are abstract: doubles are carried as
  64-bit patterns and never interpreted.
- The element-type list `AT_FORALL_SCALAR_TYPES` is taken to be:
  - `Byte` = `uint8_t`, integral
  - `Char` = `int8_t`, integral
  - `Double`, floating
  - `Float`, floating
  - `Int` = 32-bit `int`, integral
  - `Long` = `int64_t`, integral
  - `Short` = `int16_t`, integral
  - `Half`, floating

  Each integral type is described only by its closed range `[lo, hi]`.
- For integral targets, `convert<T,int64_t>` is two's-complement
  wrap-around and `convert<int64_t,T>` is the identity. Every integral
  range lies inside `int64_t`. `CheckedNarrowIff` shows that the key
  theorem needs only three assumptions, and `StaticCastIsExact` shows that
  this choice meets them:
  - the narrowing lands in range;
  - the narrowing is exact on in-range values;
  - widening back is exact.

Two details of the code are worth stating:

- The accessor compares with `!=` on `double` (line 66), not bit for bit.
  A NaN therefore never passes the check, and -0.0 equals 0.0. The model
  leaves that comparison to `Runtime.doubleNe`.
- `to<T>()` for a type with no accessor throws `std::runtime_error`
  (line 113). The model returns `Err(UnexpectedType)`.

Exceptions become `Result` values:

- `DomainError(T)` stands for `std::domain_error`, naming the target type.
- `UnexpectedType` stands for the `std::runtime_error` of `to<T>()`.

## Model

| member | source | states |
|---|---|---|
| `ScalarTypes.RangeOf` | aten/src/ATen/Scalar.h:82 | every integral element type's range contains 0 and lies inside `int64_t`; `Long` is exactly the `int64_t` range |
| `ScalarTypes.Wrap` | aten/src/ATen/Scalar.h:72 | narrowing to an integral type always lands in its range, differs from the source by a multiple of the range's size, and is the identity on in-range sources |
| `ScalarTypes.CheckedNarrow` | aten/src/ATen/Scalar.h:72-76 | on success, widening the returned value back gives the source; on failure, widening the narrowed value does not |
| `ScalarTypes.CheckedNarrowSound` | aten/src/ATen/Scalar.h:72-76 | for any narrowing into the target's range and any exact widening, a passing check means the source was in range and is returned unchanged |
| `ScalarTypes.CheckedNarrowComplete` | aten/src/ATen/Scalar.h:72-76 | if narrowing preserves representable values and widening is exact, every in-range source passes and is returned unchanged |
| `ScalarTypes.CheckedNarrowIff` | aten/src/ATen/Scalar.h:72-76 | under the three assumptions, the check passes if and only if the source is in range, and then returns the source |
| `ScalarTypes.StaticCastIsExact` | aten/src/ATen/Scalar.h:72-73 | two's-complement narrowing with identity widening meets all three assumptions, for every range |
| `ScalarTypes.StaticCast` | aten/src/ATen/Scalar.h:72 | `convert<T,int64_t>` for an integral T: every result lies in T's range, and every in-range source is returned unchanged |
| `ATenScalar.IsFloatingPoint` | aten/src/ATen/Scalar.h:89-91 | true iff the tag is `HAS_d`, i.e. the `double` member is active |
| `ATenScalar.IsIntegral` | aten/src/ATen/Scalar.h:92-94 | true iff the tag is `HAS_i`, i.e. the `int64_t` member is active |
| `ATenScalar.IsBackedByTensor` | aten/src/ATen/Scalar.h:95-97 | true iff the tag is `HAS_t`, i.e. the tensor pointer is active |
| `ATenScalar.KindsPartition` | aten/src/ATen/Scalar.h:89-100 | exactly one of `isFloatingPoint`, `isIntegral`, `isBackedByTensor` holds of every scalar |
| `ATenScalar.Default` | aten/src/ATen/Scalar.h:21 | the default scalar is integral and holds 0 |
| `ATenScalar.FromValue` | aten/src/ATen/Scalar.h:30-36 | a constructed scalar is never tensor-backed; it is integral iff the element type is integral; an integral value is stored unchanged in the `int64_t` slot, a floating one as its conversion to `double` |
| `ATenScalar.Local` | aten/src/ATen/Scalar.h:52-58 | the result is never tensor-backed; for a scalar that is not tensor-backed it is that scalar (same tag, same value); otherwise it is the tensor's `localScalar()` |
| `ATenScalar.LocalIdempotent` | aten/src/ATen/Scalar.h:52-58 | localising twice equals localising once |
| `ATenScalar.ToName` | aten/src/ATen/Scalar.h:60-78 | the only failure is a domain error naming the target; success means the value converts back to the stored value; with well-typed conversions the result is a value of the target type; for an integral stored value and an integral target, success holds iff the value is in range, and the result is then the stored value |
| `ATenScalar.TensorBackedDefersToLocal` | aten/src/ATen/Scalar.h:62-63 | a tensor-backed scalar extracts exactly as its localisation, which is not tensor-backed, so the deferral happens once |
| `ATenScalar.FromValueToNameIntegral` | aten/src/ATen/Scalar.h:30-36 | constructing from an integral value of type T and extracting as T gives that value back |
| `ATenScalar.FromValueToNameFloating` | aten/src/ATen/Scalar.h:64-69 | constructing from a floating value of type T and extracting as T gives it back, provided converting back to T recovers it and the stored double is not a NaN |
| `ATenScalar.ByteRefusals` | aten/src/ATen/Scalar.h:73-74 | 300 and -1 held as `int64_t` are refused as `Byte` with a domain error, not truncated to 44 or 255 |
| `ATenScalar.CharAcceptsMinimum` | aten/src/ATen/Scalar.h:72-76 | -128 held as `int64_t` extracts as `Char` unchanged |
| `ATenScalar.LongAcceptsEverything` | aten/src/ATen/Scalar.h:72-76 | every `int64_t` extracts as `Long` unchanged |
| `ATenScalar.To` | aten/src/ATen/Scalar.h:110-121 | `to<T>()` equals the accessor of T for every element type and fails with the unexpected-type error for any other type |

## Left out

- The constructor from CUDA `half` (lines 38-48): it depends on conditional compilation and a foreign CUDA type.
- The destructor's `release()` and the reference counting of `TensorImpl` (lines 22-26): that is resource management of an external object, and copy construction is not visible in this file.
- `Scalar(const Tensor&)` and `toTensor()` (lines 28 and 80): their bodies are not part of this model.
- Failures raised inside `localScalar()` (a tensor with more than one element, say): `localScalar` is taken to always succeed.
- The text of the error messages, built with `std::to_string`: errors carry only the target type.
- IEEE-754 semantics: floating-point values are opaque bit patterns, and every floating conversion and the `double` comparison are parameters.
- ATenScalar.ToName: for a `double` source, or a floating target, it states only that success implies the round trip holds. With the conversions abstract, the only further statement would be that the result is the narrowed value and a failed comparison gives the error, which repeats the body.
- The `const`-ness of `toName()`, `local()` and the kind queries: in a value model no member can change the scalar, so there is nothing left to state. `to<T>()` is not `const` in the code, but it only calls `toName()`, so it changes nothing either.
- Null tensor pointers: `HasT` always holds a reference, although the destructor's guard at line 23 shows that a null `HAS_t` pointer can occur.
- The tensor's state: `Runtime.localScalar` is a fixed function of the reference. Changes to the tensor's contents between calls, and the blocking read from the device, are not modelled.
