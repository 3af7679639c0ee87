/** Shared vocabulary of the model: octets, optional values and the
    octet/character correspondence PHP relies on (its strings are octets). */
module Base {

  /** One octet of a datagram or of an address. */
  type byte = b: int | 0 <= b < 256

  /** An answer address as stored in the database: one octet per
      dot-separated component of the address text. */
  type Address = seq<byte>

  datatype Option<+T> = None | Some(value: T)

  /** The character a PHP string holds for octet `b`. */
  function ByteToChar(b: byte): (c: char)
    ensures c as int == b
  {
    b as char
  }

  /** The string a PHP byte string stands for, one character per octet. */
  function BytesToString(bs: seq<byte>): (s: string)
    ensures |s| == |bs|
    ensures forall k :: 0 <= k < |bs| ==> s[k] as int == bs[k]
  {
    if bs == [] then [] else [ByteToChar(bs[0])] + BytesToString(bs[1..])
  }
}
