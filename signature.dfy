/** `is_valid_signature`: the HMAC of the request body under the shared
    secret, written as lowercase hex, compared with the signature the sender
    supplied by a comparison that does not stop at the first difference. */
module Signature {
  import opened Wrappers
  import opened Hex

  /** HMAC-SHA1 (RFC 2104 over the SHA-1 of FIPS 180-4) from a key and a
      message to its code. The cryptographic library computes it; the model
      takes it as a parameter and assumes nothing about it. */
  type Mac = (seq<byte>, seq<byte>) -> seq<byte>

  predicate IsAscii(s: string) {
    forall i :: 0 <= i < |s| ==> s[i] as int < 128
  }

  /** `as_bytes()` of a string that is all ASCII: one byte per character,
      the character's own code. */
  function AsciiBytes(s: string): (r: seq<byte>)
    requires IsAscii(s)
    ensures |r| == |s|
    ensures forall i :: 0 <= i < |s| ==> r[i] as int == s[i] as int
  {
    seq(|s|, i requires 0 <= i < |s| => s[i] as int as byte)
  }

  /** Bytes read back as text, one character per byte. */
  function Text(bytes: seq<byte>): (r: string)
    ensures |r| == |bytes|
    ensures forall i :: 0 <= i < |bytes| ==> r[i] as int == bytes[i] as int
  {
    seq(|bytes|, i requires 0 <= i < |bytes| => bytes[i] as int as char)
  }

  /** Reading the bytes of an ASCII string back as text gives the string. */
  lemma TextOfAsciiBytes(s: string)
    requires IsAscii(s)
    ensures Text(AsciiBytes(s)) == s
  {
  }

  /** The library's MAC object: a digest algorithm and key fixed when it is
      created, and the message fed to it so far with `input`. */
  class Hmac {
    const mac: Mac
    const key: seq<byte>
    var message: seq<byte>

    /** `Hmac::new(Sha1::new(), key)`: nothing fed yet. */
    constructor (mac: Mac, key: seq<byte>)
      ensures this.mac == mac && this.key == key && message == []
    {
      this.mac := mac;
      this.key := key;
      message := [];
    }

    /** `input`: the data is appended to the message. */
    method Input(data: seq<byte>)
      modifies this
      ensures message == old(message) + data
    {
      message := message + data;
    }

    /** `result().code()`: the code of the key over everything fed so far. */
    method Result() returns (code: seq<byte>)
      ensures code == mac(key, message)
    {
      code := mac(key, message);
    }
  }

  /** The bytes of `bytes_to_hex(HMAC(secret, body))`, the text a genuine
      sender puts after the algorithm prefix of its signature header. */
  function ExpectedSignature(mac: Mac, secret: seq<byte>, body: seq<byte>): (hex: seq<byte>)
    ensures |hex| == 2 * |mac(secret, body)|
    ensures forall i :: 0 <= i < |hex| ==> IsLowerHexDigit(hex[i] as int as char)
  {
    var text := BytesToHex(mac(secret, body));
    var r := AsciiBytes(text);
    assert forall i :: 0 <= i < |r| ==> r[i] as int as char == text[i];
    r
  }

  /** The expected signature, read back as hex, is exactly the MAC code. */
  lemma ExpectedSignatureDecodes(mac: Mac, secret: seq<byte>, body: seq<byte>)
    ensures HexToBytes(Text(ExpectedSignature(mac, secret, body))) == Some(mac(secret, body))
  {
    TextOfAsciiBytes(BytesToHex(mac(secret, body)));
    HexToBytesOfBytesToHex(mac(secret, body));
  }

  /** `crypto::util::fixed_time_eq`: unequal lengths are unequal at once;
      otherwise the XOR of every pair of bytes is ORed into one accumulator
      and the verdict is read only after the last pair. `examined` counts the
      pairs the loop has XORed, one per iteration: all of them whenever the
      lengths agree, wherever the first difference lies. */
  method FixedTimeEq(lhs: seq<byte>, rhs: seq<byte>) returns (equal: bool, ghost examined: nat)
    ensures equal <==> lhs == rhs
    ensures |lhs| == |rhs| ==> examined == |lhs|
  {
    if |lhs| != |rhs| {
      return false, 0;
    }
    var diff: byte := 0;
    var i := 0;
    examined := 0;
    while i < |lhs|
      invariant 0 <= i <= |lhs|
      invariant examined == i
      invariant diff == 0 <==> forall j :: 0 <= j < i ==> lhs[j] == rhs[j]
    {
      diff := diff | (lhs[i] ^ rhs[i]);
      examined := examined + 1;
      i := i + 1;
    }
    equal := diff == 0;
  }

  /** `is_valid_signature(signature, body, secret)`: feeds the body to a MAC
      object keyed with the secret, hex-encodes the code and compares. */
  method IsValidSignature(mac: Mac, signature: seq<byte>, body: seq<byte>, secret: seq<byte>)
    returns (valid: bool)
    ensures valid <==> signature == ExpectedSignature(mac, secret, body)
  {
    var hmac := new Hmac(mac, secret);
    hmac.Input(body);
    var code := hmac.Result();
    assert hmac.message == body && hmac.key == secret && hmac.mac == mac;
    assert code == mac(secret, body);
    var expected := AsciiBytes(BytesToHex(code));
    ghost var examined;
    valid, examined := FixedTimeEq(expected, signature);
  }
}
