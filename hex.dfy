/** Lowercase hexadecimal text of a byte string, as `bytes_to_hex` builds it:
    every byte becomes `format!("{:02x}", b)`, two digits, high nibble first,
    and the pieces are joined without a separator. `HexToBytes` is the
    inverse the encoding is checked against. */
module Hex {
  import opened Wrappers

  /** An octet. A bit-vector, so that the comparison of digests can XOR and OR them. */
  type byte = bv8

  predicate IsLowerHexDigit(c: char) {
    '0' <= c <= '9' || 'a' <= c <= 'f'
  }

  /** The lowercase digit of a nibble. */
  function HexDigit(n: nat): (c: char)
    requires n < 16
    ensures IsLowerHexDigit(c)
  {
    if n < 10 then ('0' as int + n) as char else ('a' as int + n - 10) as char
  }

  /** The nibble a lowercase digit stands for. */
  function DigitValue(c: char): (n: nat)
    requires IsLowerHexDigit(c)
    ensures n < 16 && HexDigit(n) == c
  {
    if c <= '9' then c as int - '0' as int else c as int - 'a' as int + 10
  }

  lemma DigitValueOfHexDigit(n: nat)
    requires n < 16
    ensures DigitValue(HexDigit(n)) == n
  {
  }

  /** `format!("{:02x}", b)`: exactly two digits, zero-padded. */
  function ByteToHex(b: byte): (r: string)
    ensures |r| == 2 && IsLowerHexDigit(r[0]) && IsLowerHexDigit(r[1])
    ensures 16 * DigitValue(r[0]) + DigitValue(r[1]) == b as int
  {
    DigitValueOfHexDigit(b as int / 16);
    DigitValueOfHexDigit(b as int % 16);
    [HexDigit(b as int / 16), HexDigit(b as int % 16)]
  }

  /** `bytes_to_hex`: two lowercase digits per byte, in order. */
  function BytesToHex(bytes: seq<byte>): (r: string)
    ensures |r| == 2 * |bytes|
    ensures forall k :: 0 <= k < |r| ==> IsLowerHexDigit(r[k])
  {
    if bytes == [] then [] else ByteToHex(bytes[0]) + BytesToHex(bytes[1..])
  }

  /** Byte `i` is written at positions `2i` and `2i + 1`, high nibble first. */
  lemma {:induction false} BytesToHexAt(bytes: seq<byte>, i: nat)
    requires i < |bytes|
    ensures BytesToHex(bytes)[2 * i] == HexDigit(bytes[i] as int / 16)
    ensures BytesToHex(bytes)[2 * i + 1] == HexDigit(bytes[i] as int % 16)
  {
    if i > 0 {
      BytesToHexAt(bytes[1..], i - 1);
      assert BytesToHex(bytes) == ByteToHex(bytes[0]) + BytesToHex(bytes[1..]);
    }
  }

  /** Reads lowercase hex text back into bytes, two digits per byte, high
      nibble first; `None` for odd length or any other character. */
  function HexToBytes(s: string): (r: Option<seq<byte>>)
    ensures r.Some? ==> |s| == 2 * |r.value|
    decreases |s|
  {
    if |s| == 0 then Some([])
    else if |s| == 1 || !IsLowerHexDigit(s[0]) || !IsLowerHexDigit(s[1]) then None
    else
      match HexToBytes(s[2..])
      case None => None
      case Some(rest) => Some([(16 * DigitValue(s[0]) + DigitValue(s[1])) as byte] + rest)
  }

  /** A byte is the byte of its value. */
  lemma ByteOfItsValue(b: byte)
    ensures (b as int) as byte == b
  {
  }

  /** Two nibbles combine into a byte whose nibbles they are. */
  lemma NibblesOfByte(hi: nat, lo: nat)
    requires hi < 16 && lo < 16
    ensures ((16 * hi + lo) as byte) as int / 16 == hi
    ensures ((16 * hi + lo) as byte) as int % 16 == lo
  {
    assert ((16 * hi + lo) as byte) as int == 16 * hi + lo;
  }

  /** Decoding the encoding gives the bytes back. */
  lemma {:induction false} HexToBytesOfBytesToHex(bytes: seq<byte>)
    ensures HexToBytes(BytesToHex(bytes)) == Some(bytes)
  {
    if bytes != [] {
      var b := bytes[0];
      var h := ByteToHex(b);
      var s := BytesToHex(bytes);
      assert s == h + BytesToHex(bytes[1..]);
      assert s[0] == h[0] && s[1] == h[1] && s[2..] == BytesToHex(bytes[1..]);
      HexToBytesOfBytesToHex(bytes[1..]);
      ByteOfItsValue(b);
      assert HexToBytes(s) == Some([b] + bytes[1..]);
      assert bytes == [b] + bytes[1..];
    }
  }

  /** Every text the decoder accepts is the encoding of what it decodes to:
      the encoder hits exactly the even-length lowercase hex texts. */
  lemma {:induction false} BytesToHexOfHexToBytes(s: string)
    requires HexToBytes(s).Some?
    ensures BytesToHex(HexToBytes(s).value) == s
    decreases |s|
  {
    if |s| > 0 {
      var hi, lo := DigitValue(s[0]), DigitValue(s[1]);
      var b := (16 * hi + lo) as byte;
      NibblesOfByte(hi, lo);
      BytesToHexOfHexToBytes(s[2..]);
      assert HexToBytes(s).value == [b] + HexToBytes(s[2..]).value;
      assert s == ByteToHex(b) + s[2..];
    }
  }

  /** Distinct digests never share a hex text. */
  lemma BytesToHexInjective(a: seq<byte>, b: seq<byte>)
    requires BytesToHex(a) == BytesToHex(b)
    ensures a == b
  {
    HexToBytesOfBytesToHex(a);
    HexToBytesOfBytesToHex(b);
  }
}
