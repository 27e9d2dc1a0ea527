/**
 Java's `byte`: a signed two's-complement 8-bit integer, and the unsigned
 value Java's formatter substitutes for it under the `x` conversion.
 */
module JavaByte {

  /** A Java `byte`, which ranges over -128..127. */
  type JByte = b: int | -128 <= b < 128

  /** The value `String.format("%x", b)` prints for a boxed `Byte`: a negative
      byte is widened by adding 2^8, so the result is the byte's bit pattern
      read as an unsigned number. */
  function Unsigned(b: JByte): (u: int)
    ensures 0 <= u < 256
    ensures (u - b) % 256 == 0
    ensures b >= 0 ==> u == b
  {
    if b < 0 then b + 256 else b
  }

  /** The inverse of `Unsigned`: the byte whose printed value is `u`. It is
      used to state that the encoding is injective. */
  function Signed(u: int): (b: JByte)
    requires 0 <= u < 256
    ensures Unsigned(b) == u
  {
    if u < 128 then u else u - 256
  }

  /** Two bytes print the same unsigned value only if they are the same byte,
      and `Signed` undoes `Unsigned`. */
  lemma UnsignedInjective(a: JByte, b: JByte)
    ensures Unsigned(a) == Unsigned(b) <==> a == b
    ensures Signed(Unsigned(a)) == a
  {
  }
}
