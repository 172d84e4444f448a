/** Types shared by every part of the store: fixed-width integers, the stored
    `Value` variant, optional results and the exceptions the code throws. */
module Common {

  /** Fixed-width integers of the C++ code, as ranges of `int`. */
  type uint8 = x: int | 0 <= x < 0x100
  type uint32 = x: int | 0 <= x < 0x1_0000_0000
  type uint64 = x: int | 0 <= x < 0x1_0000_0000_0000_0000
  type int32 = x: int | -0x8000_0000 <= x < 0x8000_0000
  type int64 = x: int | -0x8000_0000_0000_0000 <= x < 0x8000_0000_0000_0000

  /** The content of a `std::string` or a `Blob`: raw bytes. */
  type Bytes = seq<uint8>

  datatype Option<T> = None | Some(value: T)

  /** The stored value: `std::variant<std::monostate, uint32_t, uint64_t, float,
      double, std::string, Blob>`, in the variant's own order. A float or double is
      held as the fixed-point mantissa and binary exponent the codec writes for it
      (see the Serialization module); the conversion from IEEE floating point to
      that pair is not part of this model. */
  datatype Value =
    | Monostate
    | U32(u32: uint32)
    | U64(u64: uint64)
    | Float(mantissa32: int32, exponent32: int32)
    | Double(mantissa64: int64, exponent64: int32)
    | String(text: Bytes)
    | Blob(blob: Bytes)

  /** The two standard exceptions the core throws. */
  datatype Exception = InvalidArgument | OutOfRange

  /** The outcome of an operation that may throw. */
  datatype Outcome<T> = Done(value: T) | Thrown(error: Exception)
}
