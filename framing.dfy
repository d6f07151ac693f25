/**
 * The request that `communicate` formats into its buffer: the fixed header
 * block, a Content-Length line, a Basic Authorization line, then the body.
 */
module Framing {
  import opened Wire

  /** The build-time settings the request is made from (CONFIG_WEBAPI_*). */
  datatype Config = Config(url: seq<byte>, server: seq<byte>, auth: seq<byte>)

  /** REQUEST_HEADER: the literal concatenation of method line, Host and User-Agent. */
  function RequestHeader(cfg: Config): seq<byte> {
    Ascii("POST ") + cfg.url + Ascii(" HTTP/1.0\r\n")
    + Ascii("Host: ") + cfg.server + Ascii("\r\n")
    + Ascii("User-Agent: esp-idf/1.0 esp32\r\n")
  }

  const ContentLengthName: seq<byte> := Ascii("Content-Length:")
  const AuthorizationName: seq<byte> := Ascii("\r\nAuthorization:Basic ")
  const CRLF: seq<byte> := Ascii("\r\n")

  predicate IsDigit(b: byte) {
    '0' as int <= b as int <= '9' as int
  }

  predicate AllDigits(s: seq<byte>) {
    forall i :: 0 <= i < |s| ==> IsDigit(s[i])
  }

  function Digit(d: nat): (b: byte)
    requires d < 10
    ensures IsDigit(b) && b as int - '0' as int == d
  {
    ('0' as int + d) as byte
  }

  /** `%d` applied to a non-negative value: its decimal digits, most significant first. */
  function Decimal(n: nat): (r: seq<byte>)
    ensures 1 <= |r| && AllDigits(r)
    ensures |r| > 1 ==> r[0] != Digit(0)
  {
    if n < 10 then [Digit(n)] else Decimal(n / 10) + [Digit(n % 10)]
  }

  /** The value a reader of the request assigns to a run of decimal digits. */
  function DigitsValue(s: seq<byte>): nat
    requires AllDigits(s)
  {
    if s == [] then 0 else DigitsValue(s[..|s| - 1]) * 10 + (s[|s| - 1] as int - '0' as int)
  }

  lemma {:induction false} DecimalRoundTrip(n: nat)
    ensures DigitsValue(Decimal(n)) == n
  {
    if n >= 10 {
      DecimalRoundTrip(n / 10);
      var d := Decimal(n);
      assert d[..|d| - 1] == Decimal(n / 10);
    }
  }

  /** The longest run of digits at the front of `s`. */
  function LeadingDigits(s: seq<byte>): (r: seq<byte>)
    ensures |r| <= |s| && r == s[..|r|] && AllDigits(r)
    ensures |r| < |s| ==> !IsDigit(s[|r|])
  {
    if s == [] || !IsDigit(s[0]) then [] else [s[0]] + LeadingDigits(s[1..])
  }

  lemma {:induction false} LeadingDigitsStopAtNonDigit(d: seq<byte>, rest: seq<byte>)
    requires AllDigits(d)
    requires rest == [] || !IsDigit(rest[0])
    ensures LeadingDigits(d + rest) == d
  {
    if d != [] {
      assert (d + rest)[1..] == d[1..] + rest;
      LeadingDigitsStopAtNonDigit(d[1..], rest);
    }
  }

  /** How a receiver reads a `Content-Length:` header starting at offset `at` of a request. */
  function ContentLengthAt(req: seq<byte>, at: nat): Option<nat> {
    if at + |ContentLengthName| <= |req| && req[at..at + |ContentLengthName|] == ContentLengthName then
      var digits := LeadingDigits(req[at + |ContentLengthName|..]);
      if digits == [] then None else Some(DigitsValue(digits))
    else None
  }

  /** The Basic credential as it lands in the request: what `%s` copies of the encoder's output. */
  function EncodedCredential(cfg: Config, encode: seq<byte> -> seq<byte>): seq<byte> {
    CString(encode(CString(cfg.auth)))
  }

  lemma LiteralsHaveNoNul()
    ensures NUL !in ContentLengthName && NUL !in AuthorizationName && NUL !in CRLF
  {
  }

  /**
   * The format string of `communicate`'s `sprintf` filled in with C strings:
   * header block, Content-Length line, Authorization line, body. No empty line
   * separates the Authorization line from the body.
   */
  function Frame(header: seq<byte>, credential: seq<byte>, body: seq<byte>): (r: seq<byte>)
    requires NUL !in header && NUL !in credential && NUL !in body
    ensures NUL !in r
    ensures |header| + |body| <= |r|
    ensures r[..|header|] == header && r[|r| - |body|..] == body
  {
    LiteralsHaveNoNul();
    var tail := AuthorizationLine(credential) + body;
    var r := header + ContentLengthName + (Decimal(|body|) + tail);
    assert r[|r| - |body|..] == tail[|tail| - |body|..];
    r
  }

  /** The Authorization line and the line break that follows the credential. */
  function AuthorizationLine(credential: seq<byte>): seq<byte> {
    AuthorizationName + credential + CRLF
  }

  /**
   * The request `communicate` formats into its buffer. `encode` stands for the
   * library's `base64_encode`, applied to the `strlen(WEB_AUTH)` bytes of the credential.
   */
  function Request(cfg: Config, encode: seq<byte> -> seq<byte>, body: seq<byte>): (r: seq<byte>)
    ensures NUL !in r
  {
    Frame(CString(RequestHeader(cfg)), EncodedCredential(cfg, encode), CString(body))
  }

  /** The Content-Length a receiver parses is the number of body bytes that end the request. */
  lemma FrameContentLength(header: seq<byte>, credential: seq<byte>, body: seq<byte>)
    requires NUL !in header && NUL !in credential && NUL !in body
    ensures ContentLengthAt(Frame(header, credential, body), |header|) == Some(|body|)
  {
    var digits := Decimal(|body|);
    var rest := AuthorizationLine(credential) + body;
    Slices(header, ContentLengthName, digits + rest);
    LeadingDigitsStopAtNonDigit(digits, rest);
    DecimalRoundTrip(|body|);
  }

  lemma Slices(a: seq<byte>, b: seq<byte>, c: seq<byte>)
    ensures (a + b + c)[|a|..|a| + |b|] == b && (a + b + c)[|a| + |b|..] == c
  {
  }

  /** For the request as a whole: Content-Length is `strlen` of the body, which ends the request. */
  lemma RequestContentLength(cfg: Config, encode: seq<byte> -> seq<byte>, body: seq<byte>)
    ensures var r := Request(cfg, encode, body);
            var h := CString(RequestHeader(cfg));
            && ContentLengthAt(r, |h|) == Some(|CString(body)|)
            && (NUL !in body ==> ContentLengthAt(r, |h|) == Some(|body|))
  {
    var h := CString(RequestHeader(cfg));
    FrameContentLength(h, EncodedCredential(cfg, encode), CString(body));
  }

  /**
   * When the credential holds no carriage return, the four bytes in front of
   * the body are not CR LF CR LF: the framing puts no empty line between the
   * headers and the body.
   */
  lemma NoBlankLineBeforeBody(header: seq<byte>, credential: seq<byte>, body: seq<byte>)
    requires NUL !in header && NUL !in credential && NUL !in body
    requires forall i :: 0 <= i < |credential| ==> credential[i] as int != '\r' as int
    ensures var r := Frame(header, credential, body);
            var s := |r| - |body|;
            4 <= s && r[s - 2..s] == CRLF && r[s - 4..s] != Ascii("\r\n\r\n")
  {
    var r := Frame(header, credential, body);
    var tail := AuthorizationName + credential + CRLF;
    var front := header + ContentLengthName + Decimal(|body|) + tail;
    assert r == front + body;
    var s := |r| - |body|;
    assert r[..s] == front;
    assert r[s - 4] == tail[|tail| - 4];
  }
}
