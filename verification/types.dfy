/** Value types shared by the event recorder model: fixed-width unsigned
    integers, the issuance record, and an Option type for the nil-able
    references of the program. */
module Types {

  const TWO_32: int := 0x1_0000_0000
  const TWO_64: int := 0x1_0000_0000_0000_0000

  type uint32 = x: int | 0 <= x < TWO_32
  type uint64 = x: int | 0 <= x < TWO_64

  /** Seconds in the retention window: 31 days. */
  const RetentionSeconds: int := 60 * 60 * 24 * 31

  datatype Option<+T> = None | Some(value: T)

  /** One credential issuance: when it was recorded (Unix seconds), the
      quantised lifetime of the credential, and which kind it was. */
  datatype Event = Event(createTime: uint64, lifetimeSeconds: uint32, ssh: bool, x509: bool)

  /** Two's-complement reinterpretation of a signed value as uint64, as a Go
      `uint64(v)` conversion of an int64 does. */
  function ToUint64(v: int): (r: uint64)
    ensures 0 <= v < TWO_64 ==> r == v
    ensures -TWO_64 <= v < 0 ==> r == v + TWO_64
  {
    v % TWO_64
  }

  /** Oldest creation time a record may have and still be retained when the
      clock reads `now`: one retention window earlier, as a uint64. */
  function MinCreateTime(now: int): (c: uint64)
    ensures RetentionSeconds <= now < TWO_64 + RetentionSeconds ==> c + RetentionSeconds == now
  {
    ToUint64(now - RetentionSeconds)
  }
}
