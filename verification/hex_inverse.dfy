/**
 A left inverse of the encoder, used to state what its output determines:
 pairing the output's characters back into nibbles recovers the bytes, so
 distinct byte arrays print as distinct strings, and the strings the encoder
 can produce are exactly the even-length strings of lower-case digits.
 */
module HexInverse {
  import opened JavaByte
  import opened HexFormat
  import opened Utilities

  datatype Option<T> = None | Some(value: T)

  /** The shape of every encoder output: lower-case digits, two per byte. */
  predicate WellFormedHex(s: string) {
    |s| % 2 == 0 && AllLowerHex(s)
  }

  /** Reads `s` two characters at a time as the high and low nibble of one
      byte; `None` when `s` has odd length or a character outside `0-9a-f`. */
  function Unhex(s: string): (r: Option<seq<JByte>>)
    ensures r.Some? <==> WellFormedHex(s)
    ensures r.Some? ==> 2 * |r.value| == |s|
    decreases |s|
  {
    if |s| == 0 then Some([])
    else if |s| < 2 || !IsLowerHexDigit(s[0]) || !IsLowerHexDigit(s[1]) then None
    else
      match Unhex(s[2..])
      case None =>
        assert !WellFormedHex(s) by {
          if |s| % 2 == 0 {
            var i :| 0 <= i < |s[2..]| && !IsLowerHexDigit(s[2..][i]);
            assert s[i + 2] == s[2..][i];
          }
        }
        None
      case Some(rest) =>
        assert AllLowerHex(s) by {
          forall i | 0 <= i < |s| ensures IsLowerHexDigit(s[i]) {
            if i >= 2 {
              assert s[i] == s[2..][i - 2];
            }
          }
        }
        Some([Signed(DigitValue(s[0]) * 16 + DigitValue(s[1]))] + rest)
  }

  /** Splitting a byte into nibbles and joining them gives the byte back. */
  lemma NibbleJoin(hi: int, lo: int)
    requires 0 <= hi < 16 && 0 <= lo < 16
    ensures (hi * 16 + lo) / 16 == hi && (hi * 16 + lo) % 16 == lo
  {
  }

  /** Decoding the encoder's output recovers the original bytes. */
  lemma {:induction false} UnhexHex(bytes: seq<JByte>)
    ensures Unhex(Hex(bytes)) == Some(bytes)
    decreases |bytes|
  {
    if |bytes| > 0 {
      var s := Hex(bytes);
      var u := Unsigned(bytes[0]);
      assert s[2..] == Hex(bytes[1..]);
      UnhexHex(bytes[1..]);
      assert DigitValue(s[0]) * 16 + DigitValue(s[1]) == u;
      UnsignedInjective(bytes[0], bytes[0]);
      assert [bytes[0]] + bytes[1..] == bytes;
    }
  }

  /** Encoding what `Unhex` accepted reproduces the string it read. */
  lemma {:induction false} HexUnhex(s: string)
    requires Unhex(s).Some?
    ensures Hex(Unhex(s).value) == s
    decreases |s|
  {
    if |s| > 0 {
      var bytes := Unhex(s).value;
      var rest := Unhex(s[2..]).value;
      HexUnhex(s[2..]);
      var hi, lo := DigitValue(s[0]), DigitValue(s[1]);
      NibbleJoin(hi, lo);
      assert Unsigned(bytes[0]) == hi * 16 + lo;
      DigitRoundTrip(s[0]);
      DigitRoundTrip(s[1]);
      assert bytes[1..] == rest;
      assert s == s[..2] + s[2..];
      assert s[..2] == [s[0], s[1]];
    }
  }

  /** The encoding is injective: two byte arrays print the same exactly when
      they are equal. */
  lemma HexInjective(a: seq<JByte>, b: seq<JByte>)
    ensures Hex(a) == Hex(b) <==> a == b
  {
    UnhexHex(a);
    UnhexHex(b);
  }

  /** A string is an output of the encoder exactly when it has even length
      and consists of lower-case hexadecimal digits. */
  lemma HexImage(s: string)
    ensures (exists bytes :: Hex(bytes) == s) <==> WellFormedHex(s)
  {
    if WellFormedHex(s) {
      HexUnhex(s);
    }
  }
}
