/** The status byte of a reply. */
module Response {
  import opened Bytes

  datatype ResponseType = Success | Error

  /** The status byte: the enum's discriminant, 0x06 for success and 0x07 for error. */
  function ToValue(t: ResponseType): (b: Byte)
    ensures t == Success <==> b == 0x06
    ensures t == Error <==> b == 0x07
  {
    match t
    case Success => 0x06
    case Error => 0x07
  }

  /** The two codes differ, so a status byte tells success from error. */
  lemma StatusIdentifiesType(a: ResponseType, b: ResponseType)
    requires ToValue(a) == ToValue(b)
    ensures a == b
  {
  }
}
