/** The JSON text `serde_json::to_string` writes for a `ServerMessage`: an
    object with one string member, `message` (the error field is skipped).
    The reader beside the writer is the reference the writer is checked
    against. */
module Json {
  import opened Wrappers
  import opened Hex

  /** How serde_json writes one character inside a string literal: the two
      delimiters-to-be and the control characters are escaped, the short
      forms where JSON has them and `\u00XX` with lowercase digits
      otherwise; everything else is written as it is. */
  function EscapeChar(c: char): (r: string)
    ensures r == [c] <==> !(c == '"' || c == '\\' || c as int < 0x20)
    ensures r != [c] ==> |r| >= 2 && r[0] == '\\'
    ensures forall i :: 0 <= i < |r| ==> r[i] as int >= 0x20
    ensures forall i :: 0 <= i < |r| && r[i] == '"' ==> i > 0 && r[i - 1] == '\\'
  {
    if c == '"' then "\\\""
    else if c == '\\' then "\\\\"
    else if c == '\n' then "\\n"
    else if c == '\r' then "\\r"
    else if c == '\t' then "\\t"
    else if c as int == 0x08 then "\\b"
    else if c as int == 0x0C then "\\f"
    else if c as int < 0x20 then "\\u00" + [HexDigit(c as int / 16), HexDigit(c as int % 16)]
    else [c]
  }

  /** The contents of the string literal serde_json writes for `s`. */
  function Escape(s: string): (r: string)
    ensures |r| >= |s|
  {
    if s == [] then [] else EscapeChar(s[0]) + Escape(s[1..])
  }

  function Prepend(c: char, rest: Option<string>): Option<string>
  {
    match rest
    case None => None
    case Some(t) => Some([c] + t)
  }

  /** Reads the contents of a JSON string literal (section 7 of RFC 8259):
      a raw quote or control character is refused, escapes are resolved.
      `\u` takes four lowercase digits naming a character outside the
      surrogate range. */
  function Unescape(e: string): (r: Option<string>)
    decreases |e|
  {
    if e == [] then Some([])
    else if e[0] == '\\' then
      if |e| < 2 then None
      else if e[1] == '"' || e[1] == '\\' || e[1] == '/' then Prepend(e[1], Unescape(e[2..]))
      else if e[1] == 'b' then Prepend(0x08 as char, Unescape(e[2..]))
      else if e[1] == 'f' then Prepend(0x0C as char, Unescape(e[2..]))
      else if e[1] == 'n' then Prepend('\n', Unescape(e[2..]))
      else if e[1] == 'r' then Prepend('\r', Unescape(e[2..]))
      else if e[1] == 't' then Prepend('\t', Unescape(e[2..]))
      else if e[1] == 'u' && |e| >= 6 && IsLowerHexDigit(e[2]) && IsLowerHexDigit(e[3])
              && IsLowerHexDigit(e[4]) && IsLowerHexDigit(e[5]) then
        var v := 4096 * DigitValue(e[2]) + 256 * DigitValue(e[3]) + 16 * DigitValue(e[4]) + DigitValue(e[5]);
        if 0xD800 <= v < 0xE000 then None else Prepend(v as char, Unescape(e[6..]))
      else None
    else if e[0] == '"' || e[0] as int < 0x20 then None
    else Prepend(e[0], Unescape(e[1..]))
  }

  /** Reading one escaped character back yields that character. */
  lemma UnescapeEscapeChar(c: char, rest: string)
    ensures Unescape(EscapeChar(c) + rest) == Prepend(c, Unescape(rest))
  {
  }

  /** The reader recovers every text the writer escapes: what serde_json
      writes is a well-formed string literal holding exactly the message. */
  lemma {:induction false} UnescapeEscape(s: string)
    ensures Unescape(Escape(s)) == Some(s)
  {
    if s != [] {
      UnescapeEscapeChar(s[0], Escape(s[1..]));
      UnescapeEscape(s[1..]);
      assert [s[0]] + s[1..] == s;
    }
  }

  const MessageOpen: string := "{\"message\":\""
  const MessageClose: string := "\"}"

  /** `serde_json::to_string(&ServerMessage)`: compact, the one member.
      Whatever the message, the text reads back as it. */
  function SerializeMessage(message: string): (text: string)
    ensures ParseMessage(text) == Some(message)
  {
    var text := MessageOpen + Escape(message) + MessageClose;
    assert text[..|MessageOpen|] == MessageOpen;
    assert text[|text| - |MessageClose|..] == MessageClose;
    assert text[|MessageOpen|..|text| - |MessageClose|] == Escape(message);
    UnescapeEscape(message);
    text
  }

  /** Reads a `{"message":"..."}` object back to its message. */
  function ParseMessage(text: string): Option<string>
  {
    if |text| < |MessageOpen| + |MessageClose|
       || text[..|MessageOpen|] != MessageOpen
       || text[|text| - |MessageClose|..] != MessageClose
    then None
    else Unescape(text[|MessageOpen|..|text| - |MessageClose|])
  }
}
