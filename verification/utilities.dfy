/**
 `Utilities.convertBytesToHexString`: the hex encoder the app uses to print
 encoded public keys and to return signatures. Each byte of the array is
 formatted with `%02x` and the pieces are appended in array order.
 */
module Utilities {
  import opened JavaByte
  import opened HexFormat

  /** The two digits a byte contributes: its high nibble, then its low nibble. */
  function ByteDigits(b: JByte): string {
    [HexDigit(Unsigned(b) / 16), HexDigit(Unsigned(b) % 16)]
  }

  /** The `%02x` rendering of a byte is its pair of nibble digits. */
  lemma Format02xIsByteDigits(b: JByte)
    ensures Format02x(b) == ByteDigits(b)
  {
  }

  /** The encoder as a recursive definition: the two digits of the first byte
      followed by the encoding of the rest. Total on every byte sequence; the
      empty array gives the empty string. */
  function Hex(bytes: seq<JByte>): (r: string)
    ensures |r| == 2 * |bytes|
    ensures AllLowerHex(r)
  {
    if |bytes| == 0 then ""
    else
      var rest := Hex(bytes[1..]);
      AllLowerHexAppend(ByteDigits(bytes[0]), rest);
      ByteDigits(bytes[0]) + rest
  }

  /** Characters `2i` and `2i + 1` of the output are the high and low nibble
      of the unsigned value of byte `i`. */
  lemma {:induction false} HexAt(bytes: seq<JByte>, i: int)
    requires 0 <= i < |bytes|
    ensures Hex(bytes)[2 * i] == HexDigit(Unsigned(bytes[i]) / 16)
    ensures Hex(bytes)[2 * i + 1] == HexDigit(Unsigned(bytes[i]) % 16)
    decreases i
  {
    if i > 0 {
      HexAt(bytes[1..], i - 1);
    }
  }

  /** The positional property for every byte at once. */
  lemma HexPositional(bytes: seq<JByte>)
    ensures forall i :: 0 <= i < |bytes| ==>
      Hex(bytes)[2 * i] == HexDigit(Unsigned(bytes[i]) / 16) &&
      Hex(bytes)[2 * i + 1] == HexDigit(Unsigned(bytes[i]) % 16)
  {
    forall i | 0 <= i < |bytes|
      ensures Hex(bytes)[2 * i] == HexDigit(Unsigned(bytes[i]) / 16)
      ensures Hex(bytes)[2 * i + 1] == HexDigit(Unsigned(bytes[i]) % 16)
    {
      HexAt(bytes, i);
    }
  }

  /** Bytes are appended in order with nothing between them, so encoding a
      concatenation is concatenating the encodings. */
  lemma {:induction false} HexAppend(a: seq<JByte>, b: seq<JByte>)
    ensures Hex(a + b) == Hex(a) + Hex(b)
    decreases |a|
  {
    if |a| == 0 {
      assert a + b == b;
    } else {
      assert (a + b)[1..] == a[1..] + b;
      HexAppend(a[1..], b);
    }
  }

  /** One step of the source's loop: appending the `%02x` rendering of one
      more byte extends the encoding of the bytes before it. */
  lemma HexPrefixStep(bytes: seq<JByte>, k: nat)
    requires k < |bytes|
    ensures Hex(bytes[..k + 1]) == Hex(bytes[..k]) + Format02x(bytes[k])
  {
    assert bytes[..k + 1] == bytes[..k] + [bytes[k]];
    HexAppend(bytes[..k], [bytes[k]]);
    Format02xIsByteDigits(bytes[k]);
    assert Hex([bytes[k]]) == ByteDigits(bytes[k]) + Hex([]);
  }

  /** The `StringBuilder` loop of the source: after `k` bytes the builder
      holds the encoding of the first `k` bytes, so the final string is the
      encoding of the whole array. */
  method ConvertBytesToHexString(bytes: seq<JByte>) returns (s: string)
    ensures s == Hex(bytes)
    ensures |s| == 2 * |bytes|
  {
    var sb := "";
    var k := 0;
    while k < |bytes|
      invariant 0 <= k <= |bytes|
      invariant sb == Hex(bytes[..k])
    {
      HexPrefixStep(bytes, k);
      sb := sb + Format02x(bytes[k]);
      k := k + 1;
    }
    assert bytes[..k] == bytes;
    s := sb;
  }
}
