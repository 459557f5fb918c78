/** The process configuration the handlers read from the environment, and
    `get_server_port`: the listening port from an optional `PORT` value. */
module Config {
  import opened Wrappers
  import opened Hex

  /** `GITHUB_SECRET`, `TRAVIS_TOKEN` and `TRAVIS_URL`, read once. */
  datatype Config = Config(githubSecret: seq<byte>, travisToken: string, travisUrl: string)

  const DefaultPort: nat := 8080
  const MaxU16: nat := 65535

  predicate IsDecimalDigit(c: char) {
    '0' <= c <= '9'
  }

  predicate AllDecimal(s: string) {
    forall i :: 0 <= i < |s| ==> IsDecimalDigit(s[i])
  }

  /** The number a string of decimal digits denotes, most significant first. */
  function DecimalValue(digits: string): nat
    requires AllDecimal(digits)
    decreases |digits|
  {
    if digits == [] then 0
    else 10 * DecimalValue(digits[..|digits| - 1]) + (digits[|digits| - 1] as int - '0' as int)
  }

  /** `str::parse::<u16>`: an optional `+`, then at least one decimal digit
      (leading zeros allowed), and a value that fits in 16 bits. A `-`, an
      empty string, a lone `+` or any other character is an error. */
  function ParseU16(s: string): (r: Option<nat>)
    ensures r.Some? ==> r.value <= MaxU16
  {
    var digits := if |s| > 0 && s[0] == '+' then s[1..] else s;
    if digits == [] || !AllDecimal(digits) then None
    else if DecimalValue(digits) <= MaxU16 then Some(DecimalValue(digits))
    else None
  }

  /** `get_server_port`: the parsed `PORT` value when it is present and a
      valid `u16`, otherwise 8080. */
  function GetServerPort(port: Option<string>): (p: nat)
    ensures p <= MaxU16
    ensures port.Some? && ParseU16(port.value).Some? ==> p == ParseU16(port.value).value
    ensures port.None? || ParseU16(port.value).None? ==> p == DefaultPort
  {
    match port
    case None => DefaultPort
    case Some(s) =>
      match ParseU16(s)
      case None => DefaultPort
      case Some(v) => v
  }

  /** `n.to_string()`: decimal digits without leading zeros. */
  function DecimalString(n: nat): (s: string)
    decreases n
  {
    if n < 10 then [('0' as int + n) as char]
    else DecimalString(n / 10) + [('0' as int + n % 10) as char]
  }

  lemma {:induction false} DecimalValueOfDecimalString(n: nat)
    ensures |DecimalString(n)| > 0 && AllDecimal(DecimalString(n))
    ensures DecimalValue(DecimalString(n)) == n
    decreases n
  {
    var s := DecimalString(n);
    if n >= 10 {
      DecimalValueOfDecimalString(n / 10);
      assert s[..|s| - 1] == DecimalString(n / 10);
    } else {
      assert s[..0] == [];
    }
  }

  /** Every port number written in decimal parses back to itself. */
  lemma ParseU16OfDecimalString(n: nat)
    requires n <= MaxU16
    ensures ParseU16(DecimalString(n)) == Some(n)
    ensures ParseU16("+" + DecimalString(n)) == Some(n)
  {
    DecimalValueOfDecimalString(n);
    assert ("+" + DecimalString(n))[1..] == DecimalString(n);
  }

  /** A decimal number beyond 16 bits is refused. */
  lemma ParseU16Overflow(n: nat)
    requires n > MaxU16
    ensures ParseU16(DecimalString(n)) == None
  {
    DecimalValueOfDecimalString(n);
  }

  /** The value `PORT` names is used when it is a valid port; an absent or
      unparsable `PORT` gives 8080. */
  lemma GetServerPortCases(n: nat, bad: string)
    requires n <= MaxU16
    requires ParseU16(bad).None?
    ensures GetServerPort(Some(DecimalString(n))) == n
    ensures GetServerPort(Some(bad)) == DefaultPort
    ensures GetServerPort(None) == DefaultPort
  {
    ParseU16OfDecimalString(n);
  }

  /** Strings `parse::<u16>` refuses: the empty string, a lone sign, a
      negative number, a number with trailing text. */
  lemma ParseU16Refusals()
    ensures ParseU16("") == None
    ensures ParseU16("+") == None
    ensures ParseU16("-1") == None
    ensures ParseU16("80a") == None
  {
  }
}
