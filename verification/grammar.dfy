/**
 * The HTTP/1.1 grammar of RFC 9110 (sections 4.1, 5.1, 5.5, 5.6.2, 5.6.3,
 * 5.6.4) and RFC 9112 (sections 2.1, 2.3, 3, 3.1, 3.2, 4, 5, 6), one finder
 * per production, composed from the operators of module Abnf.
 *
 * The URI productions the request target needs (host, segment, query,
 * absolute-URI, port) belong to a separate URI grammar; they are a parameter
 * `u` here, and what the lemmas assume about them is stated as predicates.
 */
module Grammar {
  import opened Abnf

  /** The URI grammar's recognizers (RFC 3986), supplied from outside. */
  datatype UriGrammar = UriGrammar(
    host: Finder,
    segment: Finder,
    query: Finder,
    absoluteUri: Finder,
    port: Finder)

  ghost predicate UriBounded(u: UriGrammar)
  {
    Bounded(u.host) && Bounded(u.segment) && Bounded(u.query) && Bounded(u.absoluteUri) && Bounded(u.port)
  }

  ghost predicate UriLocal(u: UriGrammar)
  {
    Local(u.host) && Local(u.segment) && Local(u.query) && Local(u.absoluteUri) && Local(u.port)
  }

  ghost predicate UriAvoids(u: UriGrammar, c: byte)
  {
    Avoids(u.host, c) && Avoids(u.segment, c) && Avoids(u.query, c) && Avoids(u.absoluteUri, c) && Avoids(u.port, c)
  }

  // ---------------------------------------------------------------------
  // Byte classes, stated independently of the finders

  const COLON: byte := 0x3A
  const SLASH: byte := 0x2F
  const BACKSLASH: byte := 0x5C

  /** The 15 punctuation bytes RFC 9110 section 5.6.2 admits in a token. */
  const TCHAR_PUNCTUATION: set<byte> :=
    {0x21, 0x23, 0x24, 0x25, 0x26, 0x27, 0x2A, 0x2B, 0x2D, 0x2E, 0x5E, 0x5F, 0x60, 0x7C, 0x7E}

  predicate IsTChar(b: byte) { b in TCHAR_PUNCTUATION || IsDigit(b) || IsAlpha(b) }

  predicate IsObsText(b: byte) { 0x80 <= b <= 0xFF }

  predicate IsFieldVChar(b: byte) { IsVChar(b) || IsObsText(b) }

  predicate IsWs(b: byte) { b == SP || b == HTAB }

  /** SP / HTAB / field-vchar: what may stand inside a field value. */
  predicate IsFieldContentByte(b: byte) { IsWs(b) || IsFieldVChar(b) }

  predicate IsQdText(b: byte)
  {
    b == HTAB || b == SP || b == 0x21 || 0x23 <= b <= 0x5B || 0x5D <= b <= 0x7E || IsObsText(b)
  }

  /** HTAB / SP / VCHAR / obs-text: a reason-phrase byte, or the byte after "\" in a quoted-pair. */
  predicate IsTextByte(b: byte) { b == HTAB || b == SP || IsVChar(b) || IsObsText(b) }

  predicate IsToken(s: seq<byte>)
  {
    |s| > 0 && forall i :: 0 <= i < |s| ==> IsTChar(s[i])
  }

  /** A non-empty field value: field-vchar at both ends, SP/HTAB/field-vchar between. */
  predicate FieldValueShape(v: seq<byte>)
  {
    && |v| > 0
    && IsFieldVChar(v[0])
    && IsFieldVChar(v[|v| - 1])
    && forall i :: 0 <= i < |v| ==> IsFieldContentByte(v[i])
  }

  const HTTP_NAME: seq<byte> := [0x48, 0x54, 0x54, 0x50]

  /** d starts with "HTTP" "/" DIGIT "." DIGIT. */
  predicate IsHttpVersionAt(d: seq<byte>)
  {
    && |d| >= 8
    && d[..4] == HTTP_NAME
    && d[4] == SLASH
    && IsDigit(d[5])
    && d[6] == 0x2E
    && IsDigit(d[7])
  }

  predicate IsStatusCodeAt(d: seq<byte>)
  {
    |d| >= 3 && IsDigit(d[0]) && IsDigit(d[1]) && IsDigit(d[2])
  }

  /** The inside of a quoted string: qdtext bytes and "\"-escaped text bytes. */
  predicate IsQuotedContent(s: seq<byte>)
    decreases |s|
  {
    || |s| == 0
    || (IsQdText(s[0]) && IsQuotedContent(s[1..]))
    || (|s| >= 2 && s[0] == BACKSLASH && IsTextByte(s[1]) && IsQuotedContent(s[2..]))
  }

  /** d starts with HTTP-version SP status-code SP: the 13 bytes before a reason phrase. */
  predicate IsStatusLineOpening(d: seq<byte>)
  {
    && |d| >= 13
    && IsHttpVersionAt(d)
    && d[8] == SP
    && IsStatusCodeAt(d[9..])
    && d[12] == SP
  }

  /** d starts with a token immediately followed by ":". */
  predicate IsFieldLineOpening(d: seq<byte>)
  {
    var n := Run(IsTChar, d);
    1 <= n < |d| && d[n] == COLON
  }

  // ---------------------------------------------------------------------
  // RFC 9110 section 4.1: URI references

  function FindUriHost(u: UriGrammar, d: seq<byte>): set<nat>
  {
    u.host(d)
  }

  function FindSlash(d: seq<byte>): set<nat> { FindByte(SLASH, d) }

  /** "/" segment */
  function SlashSegment(u: UriGrammar): Finder
  {
    e => Concatenation([FindSlash, u.segment], e)
  }

  /** absolute-path = 1*( "/" segment ) */
  function FindAbsolutePath(u: UriGrammar, d: seq<byte>): set<nat>
  {
    OneOrMore(SlashSegment(u), d)
  }

  // ---------------------------------------------------------------------
  // RFC 9110 section 5.1, 5.5: field names and values

  /** field-name = token */
  function FindFieldName(d: seq<byte>): set<nat>
  {
    FindToken(d)
  }

  /** field-value = *field-content */
  function FindFieldValue(d: seq<byte>): set<nat>
  {
    ZeroOrMore(FindFieldContent, d)
  }

  /** SP / HTAB / field-vchar */
  function FindFieldContentByte(d: seq<byte>): set<nat>
  {
    FindSp(d) + FindHTab(d) + FindFieldVChar(d)
  }

  /** 1*( SP / HTAB / field-vchar ) */
  function FindFieldContentBytes(d: seq<byte>): set<nat>
  {
    OneOrMore(FindFieldContentByte, d)
  }

  /** 1*( SP / HTAB / field-vchar ) field-vchar */
  function FindFieldContentTail(d: seq<byte>): set<nat>
  {
    Concatenation([FindFieldContentBytes, FindFieldVChar], d)
  }

  /** [ 1*( SP / HTAB / field-vchar ) field-vchar ] */
  function FindOptionalFieldContentTail(d: seq<byte>): set<nat>
  {
    Optional(FindFieldContentTail, d)
  }

  /** field-content = field-vchar [ 1*( SP / HTAB / field-vchar ) field-vchar ] */
  function FindFieldContent(d: seq<byte>): set<nat>
  {
    Concatenation([FindFieldVChar, FindOptionalFieldContentTail], d)
  }

  /** field-vchar = VCHAR / obs-text */
  function FindFieldVChar(d: seq<byte>): set<nat>
  {
    FindVChar(d) + FindObsText(d)
  }

  /** obs-text = %x80-FF */
  function FindObsText(d: seq<byte>): set<nat>
  {
    FindValueRange(0x80, 0xFF, d)
  }

  // ---------------------------------------------------------------------
  // RFC 9110 section 5.6.2: tokens

  /** token = 1*tchar */
  function FindToken(d: seq<byte>): set<nat>
  {
    OneOrMore(FindTChar, d)
  }

  /** tchar: 15 punctuation bytes, DIGIT or ALPHA, as 17 alternatives. */
  function FindTChar(d: seq<byte>): set<nat>
  {
    FindBytes([0x21], d) + FindBytes([0x23], d) + FindBytes([0x24], d) + FindBytes([0x25], d)
    + FindBytes([0x26], d) + FindBytes([0x27], d) + FindBytes([0x2A], d) + FindBytes([0x2B], d)
    + FindBytes([0x2D], d) + FindBytes([0x2E], d) + FindBytes([0x5E], d) + FindBytes([0x5F], d)
    + FindBytes([0x60], d) + FindBytes([0x7C], d) + FindBytes([0x7E], d)
    + FindDigit(d) + FindAlpha(d)
  }

  // ---------------------------------------------------------------------
  // RFC 9110 section 5.6.3: whitespace

  /** SP / HTAB */
  function FindSpOrHTab(d: seq<byte>): set<nat>
  {
    FindSp(d) + FindHTab(d)
  }

  /** OWS = *( SP / HTAB ) */
  function FindOws(d: seq<byte>): set<nat>
  {
    ZeroOrMore(FindSpOrHTab, d)
  }

  /** RWS = 1*( SP / HTAB ) */
  function FindRws(d: seq<byte>): set<nat>
  {
    OneOrMore(FindSpOrHTab, d)
  }

  /** BWS = OWS */
  function FindBws(d: seq<byte>): set<nat>
  {
    FindOws(d)
  }

  // ---------------------------------------------------------------------
  // RFC 9110 section 5.6.4: quoted strings

  /** qdtext = HTAB / SP / %x21 / %x23-5B / %x5D-7E / obs-text */
  function FindQdText(d: seq<byte>): set<nat>
  {
    FindHTab(d) + FindSp(d) + FindByte(0x21, d) + FindValueRange(0x23, 0x5B, d)
    + FindValueRange(0x5D, 0x7E, d) + FindObsText(d)
  }

  function FindBackslash(d: seq<byte>): set<nat> { FindByte(BACKSLASH, d) }

  /** HTAB / SP / VCHAR / obs-text */
  function FindTextByte(d: seq<byte>): set<nat>
  {
    FindHTab(d) + FindSp(d) + FindVChar(d) + FindObsText(d)
  }

  /** quoted-pair = "\" ( HTAB / SP / VCHAR / obs-text ) */
  function FindQuotedPair(d: seq<byte>): set<nat>
  {
    Concatenation([FindBackslash, FindTextByte], d)
  }

  /** qdtext / quoted-pair */
  function FindQdTextOrQuotedPair(d: seq<byte>): set<nat>
  {
    FindQdText(d) + FindQuotedPair(d)
  }

  /** *( qdtext / quoted-pair ) */
  function FindQuotedStringBody(d: seq<byte>): set<nat>
  {
    ZeroOrMore(FindQdTextOrQuotedPair, d)
  }

  /** quoted-string = DQUOTE *( qdtext / quoted-pair ) DQUOTE */
  function FindQuotedString(d: seq<byte>): set<nat>
  {
    Concatenation([FindDQuote, FindQuotedStringBody, FindDQuote], d)
  }

  // ---------------------------------------------------------------------
  // RFC 9112 section 2.1: message format

  /** field-line CRLF */
  function FindFieldLineCrLf(d: seq<byte>): set<nat>
  {
    Concatenation([FindFieldLine, FindCrLf], d)
  }

  /** *( field-line CRLF ) */
  function FindFieldLinesCrLf(d: seq<byte>): set<nat>
  {
    ZeroOrMore(FindFieldLineCrLf, d)
  }

  /** [ message-body ] */
  function FindOptionalMessageBody(d: seq<byte>): set<nat>
  {
    Optional(FindMessageBody, d)
  }

  function StartLineFinder(u: UriGrammar): Finder
  {
    e => FindStartLine(u, e)
  }

  /** HTTP-message = start-line CRLF *( field-line CRLF ) CRLF [ message-body ] */
  function FindHttpMessage(u: UriGrammar, d: seq<byte>): set<nat>
  {
    Concatenation([StartLineFinder(u), FindCrLf, FindFieldLinesCrLf, FindCrLf, FindOptionalMessageBody], d)
  }

  /** start-line = request-line / status-line */
  function FindStartLine(u: UriGrammar, d: seq<byte>): set<nat>
  {
    FindRequestLine(u, d) + FindStatusLine(d)
  }

  // ---------------------------------------------------------------------
  // RFC 9112 section 2.3: HTTP version

  function FindDot(d: seq<byte>): set<nat> { FindBytes([0x2E], d) }

  function FindSlashLiteral(d: seq<byte>): set<nat> { FindBytes([SLASH], d) }

  /** HTTP-version = HTTP-name "/" DIGIT "." DIGIT */
  function FindHttpVersion(d: seq<byte>): set<nat>
  {
    Concatenation([FindHttpName, FindSlashLiteral, FindDigit, FindDot, FindDigit], d)
  }

  /** HTTP-name = %s"HTTP" */
  function FindHttpName(d: seq<byte>): set<nat>
  {
    FindBytes(HTTP_NAME, d)
  }

  // ---------------------------------------------------------------------
  // RFC 9112 section 3: request line

  function RequestTargetFinder(u: UriGrammar): Finder
  {
    e => FindRequestTarget(u, e)
  }

  /** request-line = method SP request-target SP HTTP-version */
  function FindRequestLine(u: UriGrammar, d: seq<byte>): set<nat>
  {
    Concatenation([FindMethod, FindSp, RequestTargetFinder(u), FindSp, FindHttpVersion], d)
  }

  /** method = token */
  function FindMethod(d: seq<byte>): set<nat>
  {
    FindToken(d)
  }

  /** request-target = origin-form / absolute-form / authority-form / asterisk-form */
  function FindRequestTarget(u: UriGrammar, d: seq<byte>): set<nat>
  {
    FindOriginForm(u, d) + FindAbsoluteForm(u, d) + FindAuthorityForm(u, d) + FindAsteriskForm(d)
  }

  function AbsolutePathFinder(u: UriGrammar): Finder
  {
    e => FindAbsolutePath(u, e)
  }

  function FindQuestionMark(d: seq<byte>): set<nat> { FindBytes([0x3F], d) }

  /** "?" query */
  function QueryPart(u: UriGrammar): Finder
  {
    e => Concatenation([FindQuestionMark, u.query], e)
  }

  /** [ "?" query ] */
  function OptionalQuery(u: UriGrammar): Finder
  {
    e => Optional(QueryPart(u), e)
  }

  /** origin-form = absolute-path [ "?" query ] */
  function FindOriginForm(u: UriGrammar, d: seq<byte>): set<nat>
  {
    Concatenation([AbsolutePathFinder(u), OptionalQuery(u)], d)
  }

  /** absolute-form = absolute-URI */
  function FindAbsoluteForm(u: UriGrammar, d: seq<byte>): set<nat>
  {
    u.absoluteUri(d)
  }

  function FindColon(d: seq<byte>): set<nat> { FindByte(COLON, d) }

  function UriHostFinder(u: UriGrammar): Finder
  {
    e => FindUriHost(u, e)
  }

  /** authority-form = uri-host ":" port */
  function FindAuthorityForm(u: UriGrammar, d: seq<byte>): set<nat>
  {
    Concatenation([UriHostFinder(u), FindColon, u.port], d)
  }

  /** asterisk-form = "*" */
  function FindAsteriskForm(d: seq<byte>): set<nat>
  {
    FindByte(0x2A, d)
  }

  // ---------------------------------------------------------------------
  // RFC 9112 section 4: status line

  /** [ reason-phrase ] */
  function FindOptionalReasonPhrase(d: seq<byte>): set<nat>
  {
    Optional(FindReasonPhrase, d)
  }

  /** status-line = HTTP-version SP status-code SP [ reason-phrase ] */
  function FindStatusLine(d: seq<byte>): set<nat>
  {
    Concatenation([FindHttpVersion, FindSp, FindStatusCode, FindSp, FindOptionalReasonPhrase], d)
  }

  /** status-code = 3DIGIT */
  function FindStatusCode(d: seq<byte>): set<nat>
  {
    SpecificRepetition(3, FindDigit, d)
  }

  /** reason-phrase = 1*( HTAB / SP / VCHAR / obs-text ) */
  function FindReasonPhrase(d: seq<byte>): set<nat>
  {
    OneOrMore(FindTextByte, d)
  }

  // ---------------------------------------------------------------------
  // RFC 9112 sections 5 and 6: field lines and message body

  /** field-line = field-name ":" OWS field-value OWS */
  function FindFieldLine(d: seq<byte>): set<nat>
  {
    Concatenation([FindFieldName, FindColon, FindOws, FindFieldValue, FindOws], d)
  }

  /** message-body = *OCTET */
  function FindMessageBody(d: seq<byte>): set<nat>
  {
    ZeroOrMore(FindOctet, d)
  }
}
