/** The `VerifySignature` middleware: before any handler runs, a request must
    carry an `X-Hub-Signature` header whose text after the five-character
    algorithm prefix is the hex HMAC of its body under the shared secret. */
module Gate {
  import opened Wrappers
  import opened Hex
  import opened Signature
  import opened Http

  /** Length of the algorithm prefix (`sha1=`) that is cut off the header. */
  const PrefixLength: nat := 5

  /** The bytes of `sha1=`, the prefix a genuine sender writes. */
  const Sha1Prefix: seq<byte> := [0x73, 0x68, 0x61, 0x31, 0x3D]

  /** The request body as reading it to a string came out: its bytes, or a
      failure (an I/O error, or bytes that are not UTF-8). */
  datatype Body = Body(bytes: seq<byte>) | ReadFailed

  /** What the middleware looks at: the signature header's raw value, if the
      header is present, and the body. */
  datatype Request = Request(signatureHeader: Option<seq<byte>>, body: Body)

  /** The middleware's verdict: `Started::Done`, or the error the request is
      answered with. `Admitted` records the bytes the middleware read and
      checked; `Started::Done` itself passes nothing on to the handler. */
  datatype Started = Admitted(body: seq<byte>) | Rejected(error: Error)

  /** A byte the header value's conversion to text accepts: a tab or
      visible ASCII. */
  predicate IsVisibleAscii(b: byte) {
    b == 0x09 || (0x20 <= b < 0x7F)
  }

  /** `HeaderValue::to_str`: the value as text when every byte is visible
      ASCII, otherwise an error. */
  function HeaderToStr(value: seq<byte>): (r: Option<seq<byte>>)
    ensures r.Some? <==> forall i :: 0 <= i < |value| ==> IsVisibleAscii(value[i])
    ensures r.Some? ==> r.value == value
  {
    if forall i :: 0 <= i < |value| ==> IsVisibleAscii(value[i]) then Some(value) else None
  }

  /** `str::split_at(mid)`: the text before and from `mid`, or a panic,
      here `None`, when `mid` lies past the end. */
  function SplitAt(text: seq<byte>, mid: nat): (r: Option<(seq<byte>, seq<byte>)>)
    ensures r.Some? <==> mid <= |text|
    ensures r.Some? ==> |r.value.0| == mid && r.value.0 + r.value.1 == text
  {
    if mid <= |text| then Some((text[..mid], text[mid..])) else None
  }

  /** A header text that passes `to_str` and still makes `split_at(5)`
      panic: the four bytes `sha1`. */
  lemma ShortHeaderPanicsAsWritten()
    ensures HeaderToStr(Sha1Prefix[..4]).Some?
    ensures SplitAt(Sha1Prefix[..4], PrefixLength).None?
  {
  }

  /** The signature after cutting off the first five characters, whatever
      they are. A header too short for that carries no signature and is
      refused instead of panicking. */
  function SplitSignature(text: seq<byte>): (r: Option<seq<byte>>)
    ensures r.Some? <==> |text| >= PrefixLength
    ensures r.Some? ==> text == text[..PrefixLength] + r.value
  {
    match SplitAt(text, PrefixLength)
    case None => None
    case Some((_, signature)) => Some(signature)
  }

  /** The decision `VerifySignature::start` makes, step by step: header
      present, header text, signature part, body, signature check. A
      request missing a header, with a header that is not text or too short,
      or with a wrong signature is unauthorised, all for the same
      `ParseError::Header` except the header that is not text; a body that
      cannot be read is an internal error. */
  function Start(mac: Mac, secret: seq<byte>, req: Request): (o: Started)
    ensures o.Admitted? <==>
      req.signatureHeader.Some?
      && HeaderToStr(req.signatureHeader.value).Some?
      && |req.signatureHeader.value| >= PrefixLength
      && req.body.Body?
      && req.signatureHeader.value[PrefixLength..] == ExpectedSignature(mac, secret, req.body.bytes)
    ensures o.Admitted? ==> o.body == req.body.bytes
    ensures o.Rejected? ==> o.error.Unauthorized? || o.error == InternalServerError(BodyRead)
  {
    match req.signatureHeader
    case None => Rejected(Unauthorized(HeaderParseError))
    case Some(value) =>
      match HeaderToStr(value)
      case None => Rejected(Unauthorized(ToStrError))
      case Some(text) =>
        match SplitSignature(text)
        case None => Rejected(Unauthorized(HeaderParseError))
        case Some(signature) =>
          match req.body
          case ReadFailed => Rejected(InternalServerError(BodyRead))
          case Body(bytes) =>
            if signature == ExpectedSignature(mac, secret, bytes) then Admitted(bytes)
            else Rejected(Unauthorized(HeaderParseError))
  }

  /** `VerifySignature::start` as the middleware runs it, returning at the
      first failing step and checking the signature with the comparison
      that does not stop early. */
  method VerifySignatureStart(mac: Mac, secret: seq<byte>, req: Request) returns (o: Started)
    ensures o == Start(mac, secret, req)
  {
    if req.signatureHeader.None? {
      return Rejected(Unauthorized(HeaderParseError));
    }
    var text := HeaderToStr(req.signatureHeader.value);
    if text.None? {
      return Rejected(Unauthorized(ToStrError));
    }
    var signature := SplitSignature(text.value);
    if signature.None? {
      return Rejected(Unauthorized(HeaderParseError));
    }
    if req.body.ReadFailed? {
      return Rejected(InternalServerError(BodyRead));
    }
    var valid := IsValidSignature(mac, signature.value, req.body.bytes, secret);
    if valid {
      o := Admitted(req.body.bytes);
    } else {
      o := Rejected(Unauthorized(HeaderParseError));
    }
  }

  /** The hex signature is visible ASCII. */
  lemma ExpectedSignatureIsVisible(mac: Mac, secret: seq<byte>, body: seq<byte>)
    ensures forall i :: 0 <= i < |ExpectedSignature(mac, secret, body)| ==>
      IsVisibleAscii(ExpectedSignature(mac, secret, body)[i])
  {
  }

  /** A header made of any five visible characters followed by the hex HMAC
      of the body admits the request, body intact. The prefix is not
      checked: `sha1=` is one such prefix among all others. */
  lemma SignedRequestAdmitted(mac: Mac, secret: seq<byte>, body: seq<byte>, prefix: seq<byte>)
    requires |prefix| == PrefixLength
    requires forall i :: 0 <= i < |prefix| ==> IsVisibleAscii(prefix[i])
    ensures Start(mac, secret, Request(Some(prefix + ExpectedSignature(mac, secret, body)), Body(body)))
            == Admitted(body)
  {
  }

  /** The header a genuine sender builds, `sha1=` and the hex HMAC of the
      body, is admitted. */
  lemma Sha1HeaderAdmitted(mac: Mac, secret: seq<byte>, body: seq<byte>)
    ensures Start(mac, secret, Request(Some(Sha1Prefix + ExpectedSignature(mac, secret, body)), Body(body)))
            == Admitted(body)
  {
  }

  /** A header signed for one body is refused on a body whose MAC differs:
      the middleware test's request, which signs `hello_world` but is sent
      without a body, is such a request. */
  lemma HeaderForOtherBodyRefused(mac: Mac, secret: seq<byte>, signed: seq<byte>, sent: seq<byte>)
    requires mac(secret, signed) != mac(secret, sent)
    ensures Start(mac, secret, Request(Some(Sha1Prefix + ExpectedSignature(mac, secret, signed)), Body(sent)))
            == Rejected(Unauthorized(HeaderParseError))
  {
    var forSigned, forSent := ExpectedSignature(mac, secret, signed), ExpectedSignature(mac, secret, sent);
    if forSigned == forSent {
      ExpectedSignatureDecodes(mac, secret, signed);
      ExpectedSignatureDecodes(mac, secret, sent);
      assert false;
    }
    SignedRequestAdmitted(mac, secret, signed, Sha1Prefix);
    assert (Sha1Prefix + forSigned)[PrefixLength..] == forSigned;
  }

  /** A request without the header is unauthorised, whatever its body,
      even one that cannot be read: the body is never looked at. */
  lemma MissingHeaderUnauthorized(mac: Mac, secret: seq<byte>, body: Body)
    ensures Start(mac, secret, Request(None, body)) == Rejected(Unauthorized(HeaderParseError))
  {
  }

  /** A header too short to hold the prefix is refused like a missing one. */
  lemma ShortHeaderUnauthorized(mac: Mac, secret: seq<byte>, header: seq<byte>, body: Body)
    requires |header| < PrefixLength
    requires forall i :: 0 <= i < |header| ==> IsVisibleAscii(header[i])
    ensures Start(mac, secret, Request(Some(header), body)) == Rejected(Unauthorized(HeaderParseError))
  {
  }

  /** A well-formed header on a body that cannot be read is an internal
      error, never an authentication failure. */
  lemma ReadFailureIsInternal(mac: Mac, secret: seq<byte>, header: seq<byte>)
    requires |header| >= PrefixLength
    requires forall i :: 0 <= i < |header| ==> IsVisibleAscii(header[i])
    ensures Start(mac, secret, Request(Some(header), ReadFailed)) == Rejected(InternalServerError(BodyRead))
    ensures ErrorStatus(Start(mac, secret, Request(Some(header), ReadFailed)).error) == 500
  {
  }

  /** A wrong signature is refused exactly as a missing header is, so the
      caller cannot tell the two apart. */
  lemma WrongSignatureLooksLikeMissingHeader(mac: Mac, secret: seq<byte>, header: seq<byte>, body: seq<byte>)
    requires |header| >= PrefixLength
    requires forall i :: 0 <= i < |header| ==> IsVisibleAscii(header[i])
    requires header[PrefixLength..] != ExpectedSignature(mac, secret, body)
    ensures Start(mac, secret, Request(Some(header), Body(body))) == Start(mac, secret, Request(None, Body(body)))
  {
  }

  /** Changing any one byte of a genuine signature header's signature,
      to any other value, gets the request refused as unauthorised. */
  lemma AlteredSignatureRejected(mac: Mac, secret: seq<byte>, body: seq<byte>, i: nat, b: byte)
    requires i < |ExpectedSignature(mac, secret, body)|
    requires b != ExpectedSignature(mac, secret, body)[i]
    ensures var forged := ExpectedSignature(mac, secret, body)[i := b];
            Start(mac, secret, Request(Some(Sha1Prefix + forged), Body(body))).Rejected?
            && Start(mac, secret, Request(Some(Sha1Prefix + forged), Body(body))).error.Unauthorized?
  {
  }
}
