/** An integer that is the same number as an int64 and as a uint64. */
module SafeInt {
  import opened Bytes

  const MAX_INT64: nat := 0x7FFF_FFFF_FFFF_FFFF

  type uint64 = n: int | 0 <= n < 0x1_0000_0000_0000_0000
  type int64 = n: int | -0x8000_0000_0000_0000 <= n < 0x8000_0000_0000_0000

  /** A Go value of any type, as far as the conversion distinguishes them. */
  datatype Number = FromUint64(u: uint64) | FromInt64(i: int64) | OtherType

  datatype SafeInt64 = SafeInt64(u: uint64, i: int64)

  datatype SafeIntError = Exceeded | Negative | Unsupported

  /** Two's complement reinterpretation of a uint64 as an int64, and back. */
  function ToInt64(u: uint64): int64 { if u <= MAX_INT64 then u else u - 0x1_0000_0000_0000_0000 }

  function ToUint64(i: int64): uint64 { if i >= 0 then i else i + 0x1_0000_0000_0000_0000 }

  function NewSafeInt64(number: Number): (r: Result<SafeInt64, SafeIntError>)
    ensures r.Ok? <==> (number.FromUint64? && number.u <= MAX_INT64) || (number.FromInt64? && number.i >= 0)
    ensures r.Ok? ==> 0 <= r.value.u as int == r.value.i as int <= MAX_INT64
    ensures r.Ok? ==> r.value.u as int == if number.FromUint64? then number.u as int else number.i as int
  {
    match number
    case FromUint64(n) => if n > MAX_INT64 then Err(Exceeded) else Ok(SafeInt64(n, ToInt64(n)))
    case FromInt64(n) => if n < 0 then Err(Negative) else Ok(SafeInt64(ToUint64(n), n))
    case OtherType => Err(Unsupported)
  }

  /** What a server sends as an int64, a client reads back as the same uint64. */
  lemma TripThroughInt64(u: uint64)
    requires NewSafeInt64(FromUint64(u)).Ok?
    ensures NewSafeInt64(FromInt64(NewSafeInt64(FromUint64(u)).value.i)) == NewSafeInt64(FromUint64(u))
  {
  }
}
