# Webhook relay for zigbee2mqtt-hassio-updater: signature gate and build trigger

The service takes GitHub push webhooks on `POST /` and starts a Travis CI build
when the push is for a branch whose ref ends in `master`. This project models
its core, `src/main.rs`, in Dafny and proves properties of that model:

- **Hex** (`hex.dfy`): `bytes_to_hex`, which writes two lowercase hex digits
  per byte, high nibble first. A decoder is proved to invert it in both
  directions, so the encoding is injective.
- **Signature** (`signature.dfy`): `is_valid_signature`. It feeds the body to
  a MAC object keyed with the secret, hex-encodes the code and compares the
  result with the supplied signature using `fixed_time_eq`. That comparison
  is a loop that ORs the XOR of every byte pair into one accumulator and
  has no exit but its end. It is proved to answer "equal" exactly when the
  two byte strings are equal. A ghost counter, incremented once per
  iteration, is proved to reach the length whenever the lengths agree, so
  the loop XORs every pair. HMAC-SHA1 is a parameter
  (`Mac`).
- **Gate** (`gate.dfy`): the `VerifySignature` middleware, as a decision
  function (`Start`) and as a method that takes the middleware's steps with
  early returns (`VerifySignatureStart`). The method is proved equal to the
  function.
- **Dispatch** (`dispatch.dfy`): the `index` handler's branch rule, the build
  request it sends, `ServerMessage::success`/`error`, `respond_to` and
  `auth_str`.
- **Json** (`json.dfy`): the JSON text written for a `ServerMessage`, checked
  against a reader.
- **Config** (`config.dfy`): the configuration record and `get_server_port`.
- **Server** (`server.dfy`): one request through the middleware, the JSON
  extractor and the handler, with end-to-end properties.

Three behaviours of the code are easy to misread; the model keeps them as
written:

- The header's five-character prefix is cut off without checking that it is
  `sha1=`.
- Any response from Travis counts as a successful send, whatever its status.
- A body that is not a push event is refused by the framework's JSON
  extractor with status 400, not 500.

## Model

| member | source | states |
|---|---|---|
| Hex.HexDigit | src/main.rs:128 | a nibble is written as a lowercase hex digit |
| Hex.DigitValue | src/main.rs:128 | a lowercase digit stands for a nibble below 16 that is written back as that digit |
| Hex.ByteToHex | src/main.rs:128 | `{:02x}` of a byte is exactly two lowercase digits whose values, high first, make up the byte |
| Hex.BytesToHex | src/main.rs:125-131 | the text is exactly twice as long as the input and every character is in `0-9a-f` |
| Hex.BytesToHexAt | src/main.rs:128 | characters 2i and 2i+1 are the high and the low nibble of byte i |
| Hex.HexToBytes | src/main.rs:128 | the reference decoder: two characters per decoded byte |
| Hex.HexToBytesOfBytesToHex | src/main.rs:125-131 | decoding `bytes_to_hex(b)` gives back `b` |
| Hex.BytesToHexOfHexToBytes | src/main.rs:125-131 | every text the decoder accepts is the encoding of what it decodes to |
| Hex.BytesToHexInjective | src/main.rs:125-131 | two byte strings with the same hex text are equal |
| Signature.AsciiBytes | src/main.rs:120-121 | `as_bytes` of ASCII text: one byte per character, with the character's code |
| Signature.Hmac.constructor | src/main.rs:114-115 | a MAC object created with the secret as key has been fed nothing |
| Signature.Hmac.Input | src/main.rs:116 | `input` appends the data to the message fed so far |
| Signature.Hmac.Result | src/main.rs:117 | the code is the MAC of the key over everything fed so far |
| Signature.ExpectedSignature | src/main.rs:117-120 | the expected signature is twice as long as the MAC code and all lowercase hex digits |
| Signature.ExpectedSignatureDecodes | src/main.rs:117-120 | the expected signature, read back as hex, is exactly `HMAC(secret, body)` |
| Signature.FixedTimeEq | src/main.rs:119-122 | true exactly when both byte strings have the same length and content; when the lengths agree, the per-iteration counter reaches the length, so every byte pair is XORed |
| Signature.IsValidSignature | src/main.rs:113-123 | true exactly when the signature equals the hex HMAC of the body under the secret |
| Gate.HeaderToStr | src/main.rs:95-96 | the header value becomes text exactly when every byte is a tab or visible ASCII |
| Gate.SplitAt | src/main.rs:98 | `split_at(mid)` succeeds exactly when `mid` is within the text, and the two halves rejoin to it (a panic otherwise) |
| Gate.ShortHeaderPanicsAsWritten | src/main.rs:98 | the header `sha1` passes `to_str` and makes `split_at(5)` panic |
| Gate.SplitSignature | src/main.rs:97-98 | the signature is what follows the first five characters, present exactly when the header has at least five |
| Gate.Start | src/main.rs:88-110 | admits exactly when the header is present, is text, has at least five characters, the body was read and the rest of the header is the expected signature; an admission records the bytes that were checked; every refusal is unauthorised or the body-read internal error |
| Gate.VerifySignatureStart | src/main.rs:88-110 | the middleware's steps, with early returns and the full comparison, reach the same verdict as `Start` |
| Gate.ExpectedSignatureIsVisible | src/main.rs:120 | a genuine signature passes the header's text check |
| Gate.SignedRequestAdmitted | src/main.rs:98-106 | any five visible characters followed by the hex HMAC of the body admit the request, body intact |
| Gate.Sha1HeaderAdmitted | src/tests.rs:52-55 | the header `sha1=` + hex HMAC that the middleware test builds is admitted when sent with the body it signs |
| Gate.HeaderForOtherBodyRefused | src/tests.rs:57-65 | a header signed for one body is refused as unauthorised on a body with a different MAC, as the middleware test's bodiless request is |
| Gate.MissingHeaderUnauthorized | src/main.rs:92-94 | no header: unauthorised with `ParseError::Header`, whatever the body, even an unreadable one |
| Gate.ShortHeaderUnauthorized | src/main.rs:98 | a header shorter than the prefix is refused as unauthorised, like a missing one |
| Gate.ReadFailureIsInternal | src/main.rs:101-103 | a well-formed header on an unreadable body gives an internal error (500), not an authentication failure |
| Gate.WrongSignatureLooksLikeMissingHeader | src/main.rs:105-109 | a wrong signature gets exactly the verdict a missing header gets |
| Gate.AlteredSignatureRejected | src/main.rs:105-109 | changing any one byte of a genuine signature gets the request refused as unauthorised |
| Dispatch.Success | src/main.rs:70-75 | a success message becomes an Ok reply whose JSON body reads back as the text |
| Dispatch.Failure | src/main.rs:77-82 | an error message has an empty text and becomes exactly its error |
| Dispatch.RespondTo | src/main.rs:57-66 | an error comes back as the reply's error; otherwise the reply is 200 `application/json` whose body reads back as the message |
| Dispatch.AuthStr | src/main.rs:149-151 | the value is `token ` followed by exactly the token |
| Dispatch.AuthStrExample | src/tests.rs:13-16 | `auth_str` of `ablkjdfsoiuwre` is `token ablkjdfsoiuwre` |
| Dispatch.TravisRequest | src/main.rs:133-147 | the build request goes to the fixed Travis endpoint as JSON with API version 3, is authorised with `token ` followed by exactly the token, and asks for branch `master` |
| Dispatch.EndsWith | src/main.rs:157 | `ends_with`: the text is some prefix followed by the suffix |
| Dispatch.EndsWithAppended | src/main.rs:157 | any text followed by the suffix ends with it |
| Dispatch.Index | src/main.rs:153-169 | a build request is sent exactly when the ref ends with `master`; it goes to the Travis endpoint, carries `auth_str` of the token, and asks for branch `master` |
| Dispatch.OtherBranchIgnoresNetwork | src/main.rs:166-168 | a push for another branch gets the same 200 not-master reply whatever the network would do |
| Dispatch.MasterPushReplies | src/main.rs:159-165 | a push for master is answered 200 with the Travis URL message on any response, and with the client's internal error and an empty message when the send fails |
| Dispatch.BranchPolicyExamples | src/main.rs:157 | `refs/heads/master`, `not-master` and `feature/master` trigger; `masterful` and `develop` do not |
| Json.EscapeChar | src/main.rs:61 | a character is written as itself unless it is a quote, a backslash or a control character, which become a backslash escape; the output has no raw control character, and every quote in it follows a backslash |
| Json.Escape | src/main.rs:61 | the escaped text is never shorter than the message |
| Json.UnescapeEscapeChar | src/main.rs:61 | reading one escaped character back gives that character |
| Json.UnescapeEscape | src/main.rs:61 | reading the escaped message back gives the message |
| Json.SerializeMessage | src/main.rs:61 | the JSON body written for any message reads back as that message |
| Config.ParseU16 | src/main.rs:174 | a parsed port is at most 65535 |
| Config.GetServerPort | src/main.rs:171-176 | the port is the parsed `PORT` value when there is one, and 8080 when `PORT` is absent or does not parse |
| Config.DecimalValueOfDecimalString | src/main.rs:174 | the decimal text of n is digits only and denotes n |
| Config.ParseU16OfDecimalString | src/main.rs:174 | every 16-bit number, written in decimal with or without `+`, parses back to itself |
| Config.ParseU16Overflow | src/main.rs:174 | a decimal number above 65535 is refused |
| Config.GetServerPortCases | src/main.rs:171-176 | a valid `PORT` is used; an absent or invalid one gives 8080 |
| Config.ParseU16Refusals | src/main.rs:174 | the empty string, a lone `+`, `-1` and `80a` are refused |
| Server.Serve | src/main.rs:183-186 | a build request goes out only for a request the middleware admits |
| Server.SentIff | src/main.rs:183-186 | a build request goes out exactly when the request is authentic, its body is a push event, and the ref ends with `master`; it carries the configured token |
| Server.MissingHeaderNeverDispatches | src/main.rs:92-94 | no header: 401, and nothing is sent |
| Server.DecoderSeesSignedBodyOnly | src/main.rs:101-106 | under the hand-off `Server.Serve` assumes (see Left out), the reply depends on the extractor only through the bytes the signature was checked over |
| Server.MalformedPayloadIsNotAuthFailure | src/main.rs:153 | an authentic body that is not a push event gets the extractor's error, not 401, and nothing is sent |
| Server.AuthenticPushReplies | src/main.rs:157-168 | an authentic master push with any response gets the Travis URL message; an authentic other push gets the not-master message, and nothing is sent |
| Server.FailedSendIsInternalError | src/main.rs:159-164 | an authentic master push whose send fails is answered 500 |

## Findings

| source | as written | input that shows it | evidently intended | confidence | as-written member | corrected member |
|---|---|---|---|---|---|---|
| src/main.rs:98 | `s.split_at(5)` panics when the header text is shorter than five characters | the header `X-Hub-Signature: sha1` | refuse the request as unauthorised, as for a missing header | high; not executed | Gate.ShortHeaderPanicsAsWritten | Gate.ShortHeaderUnauthorized |

The rest of the model (`Gate.SplitSignature`, `Gate.Start`, `Server.Serve`)
uses the corrected behaviour.

## Left out

- HMAC-SHA1 and SHA-1 (src/main.rs:114-117) come from a cryptographic library. `Mac` is an arbitrary function parameter. The known-answer vector in src/tests.rs:27-31 is not checked.
- Signature.FixedTimeEq: the contract counts loop iterations, not time; timing cannot be stated in Dafny. The library's early `false` on unequal lengths is kept.
- The outbound call (src/main.rs:133-147) is network I/O. Its result is the `SendOutcome` parameter. The request it would send is modelled as data (`Dispatch.TravisRequest`).
- The JSON deserialisation of `PushEvent` (src/main.rs:30-34) is a library parser. It is the `PushDecoder` parameter. The extractor's content-type check is not modelled.
- Environment reads and their `unwrap` panics (src/main.rs:100, 150, 156) become fields of `Config`. The panic on a missing `TRAVIS_URL` for a non-master push is not reproduced.
- src/tests.rs:40-41 sets `WEBHOOK_SECRET`, while the middleware reads `GITHUB_SECRET`. This mismatch is not reproduced.
- The middleware test (src/tests.rs:57-61) signs `hello_world` but sends its request without a body. `Gate.HeaderForOtherBodyRefused` shows such a request is refused unless the MAC of the empty body happens to equal the MAC of `hello_world`.
- Server.Serve: assumes the JSON extractor parses the same bytes the middleware read and checked. In the code, `start` reads the payload to the end into a local string (src/main.rs:101-103), and `Started::Done` passes nothing on. `index`'s extractor (src/main.rs:153) then reads the payload again. What that second read sees after the first has drained the payload is up to the framework, which is not part of this model.
- The actix server, routing, socket binding and `main` (src/main.rs:178-193) are framework plumbing. Only the order middleware, extractor, handler is kept, in `Server.Serve`.
- The header lookup by name (case-insensitive, first value) is the framework's. The request record holds the header value or nothing.
- `read_to_string` also fails on a body that is not UTF-8. Both that and an I/O error are the single `ReadFailed` case.
- Config.ParseU16 checks the whole value against 65535. The library checks for overflow digit by digit; the two agree because a prefix's value never exceeds the whole number's.
- Json.Unescape is the reference reader. It takes `\u` escapes with lowercase digits only, and it does not join surrogate pairs; serde_json writes neither.
