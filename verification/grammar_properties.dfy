/**
 * What each production of module Grammar matches, stated against the byte
 * classes and reference predicates of that module rather than against the
 * operators the production is built from.
 */
module GrammarProperties {
  import opened Abnf
  import opened Grammar

  // ---------------------------------------------------------------------
  // One-byte classes

  /** tchar matches one byte: one of the 15 punctuation bytes, a DIGIT or an ALPHA. */
  lemma TCharMatches(d: seq<byte>)
    ensures FindTChar(d) == ByteClass(IsTChar, d)
  {
    forall k ensures k in FindTChar(d) <==> k in ByteClass(IsTChar, d) {
      TCharAt(d, k);
    }
  }

  lemma TCharAt(d: seq<byte>, k: nat)
    ensures k in FindTChar(d) <==> k == 1 && |d| > 0 && IsTChar(d[0])
  {
    OneByteLiteral(0x21, d); OneByteLiteral(0x23, d); OneByteLiteral(0x24, d); OneByteLiteral(0x25, d);
    OneByteLiteral(0x26, d); OneByteLiteral(0x27, d); OneByteLiteral(0x2A, d); OneByteLiteral(0x2B, d);
    OneByteLiteral(0x2D, d); OneByteLiteral(0x2E, d); OneByteLiteral(0x5E, d); OneByteLiteral(0x5F, d);
    OneByteLiteral(0x60, d); OneByteLiteral(0x7C, d); OneByteLiteral(0x7E, d);
  }

  /** A one-byte literal matches at 1 exactly on a buffer that opens with that byte. */
  lemma OneByteLiteral(v: byte, d: seq<byte>)
    ensures FindBytes([v], d) == if |d| > 0 && d[0] == v then {1} else {}
  {
    if |d| > 0 && d[0] == v {
      assert d[..1] == [v];
    }
  }

  /** field-vchar is VCHAR or obs-text; obs-text is %x80-FF. */
  lemma FieldVCharMatches(d: seq<byte>)
    ensures FindObsText(d) == ByteClass(IsObsText, d)
    ensures FindFieldVChar(d) == ByteClass(IsFieldVChar, d)
  {
  }

  /** qdtext, and the byte class after "\" in a quoted-pair and inside a reason phrase. */
  lemma TextBytesMatch(d: seq<byte>)
    ensures FindQdText(d) == ByteClass(IsQdText, d)
    ensures FindTextByte(d) == ByteClass(IsTextByte, d)
  {
  }

  // ---------------------------------------------------------------------
  // Runs: tokens, whitespace, reason phrases, message bodies

  /** token, method and field-name match every prefix inside the leading tchar run. */
  lemma TokenMatches(d: seq<byte>)
    ensures FindToken(d) == Upto(1, Run(IsTChar, d))
    ensures FindMethod(d) == Upto(1, Run(IsTChar, d))
    ensures FindFieldName(d) == Upto(1, Run(IsTChar, d))
  {
    forall e ensures FindTChar(e) == ByteClass(IsTChar, e) {
      TCharMatches(e);
    }
    RepetitionOfClass(FindTChar, IsTChar, d);
  }

  /** OWS and BWS match every prefix of the leading SP/HTAB run; RWS the non-empty ones. */
  lemma WhitespaceMatches(d: seq<byte>)
    ensures FindOws(d) == Upto(0, Run(IsWs, d))
    ensures FindBws(d) == Upto(0, Run(IsWs, d))
    ensures FindRws(d) == Upto(1, Run(IsWs, d))
  {
    assert forall e :: FindSpOrHTab(e) == ByteClass(IsWs, e);
    RepetitionOfClass(FindSpOrHTab, IsWs, d);
  }

  /** reason-phrase matches every non-empty prefix of the leading HTAB/SP/VCHAR/obs-text run. */
  lemma ReasonPhraseMatches(d: seq<byte>)
    ensures FindReasonPhrase(d) == Upto(1, Run(IsTextByte, d))
  {
    forall e ensures FindTextByte(e) == ByteClass(IsTextByte, e) {
      TextBytesMatch(e);
    }
    RepetitionOfClass(FindTextByte, IsTextByte, d);
  }

  /** message-body matches every prefix of the buffer. */
  lemma MessageBodyMatches(d: seq<byte>)
    ensures FindMessageBody(d) == Upto(0, |d|)
  {
    RepetitionOfClass(FindOctet, IsOctet, d);
    RunCovers(IsOctet, d, |d|);
  }

  /** status-code matches at 3 exactly when three DIGITs open the buffer. */
  lemma StatusCodeMatches(d: seq<byte>)
    ensures FindStatusCode(d) == if IsStatusCodeAt(d) then {3} else {}
  {
    SpecificRepetitionOfClass(3, FindDigit, IsDigit, d);
    if IsStatusCodeAt(d) {
      RunCovers(IsDigit, d, 3);
    } else {
      RunStops(IsDigit, d);
    }
  }

  // ---------------------------------------------------------------------
  // Field values

  lemma FieldContentBytesMatches(d: seq<byte>)
    ensures FindFieldContentBytes(d) == Upto(1, Run(IsFieldContentByte, d))
  {
    forall e ensures FindFieldContentByte(e) == ByteClass(IsFieldContentByte, e) {
      FieldVCharMatches(e);
    }
    RepetitionOfClass(FindFieldContentByte, IsFieldContentByte, d);
  }

  /** 1*( SP / HTAB / field-vchar ) field-vchar: at least two content bytes, the last a field-vchar. */
  lemma FieldContentTailAt(d: seq<byte>, k: nat)
    ensures k in FindFieldContentTail(d) <==>
      && 2 <= k <= |d|
      && IsFieldVChar(d[k - 1])
      && forall i :: 0 <= i < k ==> IsFieldContentByte(d[i])
  {
    if k in FindFieldContentTail(d) {
      FieldContentTailElim(d, k);
    }
    if && 2 <= k <= |d|
       && IsFieldVChar(d[k - 1])
       && forall i :: 0 <= i < k ==> IsFieldContentByte(d[i])
    {
      FieldContentTailIntro(d, k);
    }
  }

  lemma FieldContentTailElim(d: seq<byte>, k: nat)
    requires k in FindFieldContentTail(d)
    ensures 2 <= k <= |d| && IsFieldVChar(d[k - 1])
    ensures forall i :: 0 <= i < k ==> IsFieldContentByte(d[i])
  {
    var fs := [FindFieldContentBytes, FindFieldVChar];
    ListSplit2(FindFieldContentBytes, FindFieldVChar);
    var x := ConcatenationElim(fs, d, k);
    ContentBytesPrefix(d, x);
    var e := d[x..];
    FieldVCharMatches(e);
    ConcatenationSingleClass(FindFieldVChar, IsFieldVChar, e, k - x);
    assert k == x + 1 && d[x] == e[0];
  }

  lemma ContentBytesPrefix(d: seq<byte>, x: nat)
    requires x in FindFieldContentBytes(d)
    ensures 1 <= x <= |d|
    ensures forall i :: 0 <= i < x ==> IsFieldContentByte(d[i])
  {
    FieldContentBytesMatches(d);
    RunStops(IsFieldContentByte, d);
  }

  lemma FieldContentTailIntro(d: seq<byte>, k: nat)
    requires 2 <= k <= |d| && IsFieldVChar(d[k - 1])
    requires forall i :: 0 <= i < k ==> IsFieldContentByte(d[i])
    ensures k in FindFieldContentTail(d)
  {
    var fs := [FindFieldContentBytes, FindFieldVChar];
    ListSplit2(FindFieldContentBytes, FindFieldVChar);
    var x := k - 1;
    RunCovers(IsFieldContentByte, d, x);
    FieldContentBytesMatches(d);
    assert x in fs[0](d);
    FieldVCharMatches(d[x..]);
    ConcatenationSingle(FindFieldVChar, d[x..], 1);
    ConcatenationIntro(fs, d, x, k);
  }

  /**
   * field-content matches a prefix of length 1 or at least 3 that has the
   * shape of a field value: field-vchar at both ends, SP/HTAB/field-vchar
   * between.  So no match starts or ends with whitespace.
   */
  lemma FieldContentAt(d: seq<byte>, k: nat)
    ensures k in FindFieldContent(d) <==> 1 <= k <= |d| && k != 2 && FieldValueShape(d[..k])
  {
    var fs := [FindFieldVChar, FindOptionalFieldContentTail];
    ListSplit2(FindFieldVChar, FindOptionalFieldContentTail);
    FieldVCharMatches(d);
    if |d| > 0 && IsFieldVChar(d[0]) {
      ConcatenationFixedHead(fs, d, 1, k);
      if k >= 1 {
        var t := d[1..];
        ConcatenationSingle(FindOptionalFieldContentTail, t, k - 1);
        FieldContentTailAt(t, k - 1);
        if k >= 3 && k <= |d| {
          var v := d[..k];
          assert t[k - 2] == v[k - 1];
          assert (forall i :: 0 <= i < k - 1 ==> IsFieldContentByte(t[i]))
            <==> (forall i :: 0 <= i < k ==> IsFieldContentByte(v[i])) by {
            forall i | 0 <= i < k - 1 ensures t[i] == v[i + 1] { }
          }
        }
      }
    } else {
      ConcatenationEmptyHead(fs, d);
    }
  }

  /** Two field-value shapes side by side form one. */
  lemma ShapeJoin(d: seq<byte>, x: nat, k: nat)
    requires 0 < x < k <= |d|
    requires FieldValueShape(d[..x]) && FieldValueShape(d[x..][..k - x])
    ensures FieldValueShape(d[..k])
  {
    var a, b, v := d[..x], d[x..][..k - x], d[..k];
    forall i | 0 <= i < k ensures IsFieldContentByte(v[i]) {
      if i < x {
        assert v[i] == a[i];
      } else {
        assert v[i] == b[i - x];
      }
    }
    assert v[k - 1] == b[k - x - 1];
  }

  /**
   * field-value matches the empty prefix, and every non-empty prefix that
   * has the shape of a field value.
   */
  lemma {:induction false} FieldValueAt(d: seq<byte>, k: nat)
    ensures k in FindFieldValue(d) <==> k == 0 || (1 <= k <= |d| && FieldValueShape(d[..k]))
    decreases |d|
  {
    if k in FindFieldValue(d) && k != 0 {
      assert k in OneOrMore(FindFieldContent, d);
      var x := OneOrMoreElim(FindFieldContent, d, k);
      FieldContentAt(d, x);
      FieldValueAt(d[x..], k - x);
      if k - x > 0 {
        ShapeJoin(d, x, k);
      }
    }
    if 1 <= k <= |d| && FieldValueShape(d[..k]) {
      if k != 2 {
        FieldContentAt(d, k);
        OneOrMoreIntro(FindFieldContent, d, k, k);
      } else {
        var t := d[1..];
        assert d[..1] == [d[0]];
        assert t[..1] == [d[1]];
        FieldContentAt(d, 1);
        FieldContentAt(t, 1);
        OneOrMoreIntro(FindFieldContent, t, 1, 1);
        OneOrMoreIntro(FindFieldContent, d, 1, 2);
      }
    }
  }

  // ---------------------------------------------------------------------
  // Quoted strings

  /** quoted-pair matches only at 2: a backslash, then HTAB, SP, VCHAR or obs-text. */
  lemma QuotedPairAt(d: seq<byte>, k: nat)
    ensures k in FindQuotedPair(d) <==> k == 2 && |d| >= 2 && d[0] == BACKSLASH && IsTextByte(d[1])
  {
    var fs := [FindBackslash, FindTextByte];
    ListSplit2(FindBackslash, FindTextByte);
    if |d| > 0 && d[0] == BACKSLASH {
      ConcatenationFixedHead(fs, d, 1, k);
      if k >= 1 {
        ConcatenationSingle(FindTextByte, d[1..], k - 1);
        TextBytesMatch(d[1..]);
      }
    } else {
      ConcatenationEmptyHead(fs, d);
    }
  }

  lemma QdTextOrQuotedPairAt(d: seq<byte>, k: nat)
    ensures k in FindQdTextOrQuotedPair(d) <==>
      || (k == 1 && |d| >= 1 && IsQdText(d[0]))
      || (k == 2 && |d| >= 2 && d[0] == BACKSLASH && IsTextByte(d[1]))
  {
    TextBytesMatch(d);
    QuotedPairAt(d, k);
  }

  /** *( qdtext / quoted-pair ) matches exactly the prefixes that are quoted content. */
  lemma QuotedStringBodyAt(d: seq<byte>, k: nat)
    ensures k in FindQuotedStringBody(d) <==> k <= |d| && IsQuotedContent(d[..k])
  {
    if k in FindQuotedStringBody(d) {
      QuotedStringBodyElim(d, k);
    }
    if k <= |d| && IsQuotedContent(d[..k]) {
      QuotedStringBodyIntro(d, k);
    }
  }

  lemma {:induction false} QuotedStringBodyElim(d: seq<byte>, k: nat)
    requires k in FindQuotedStringBody(d)
    ensures k <= |d| && IsQuotedContent(d[..k])
    decreases |d|
  {
    if k != 0 {
      var x := QuotedStringBodySplit(d, k);
      QuotedStringBodyElim(d[x..], k - x);
      QuotedContentJoin(d, x, k);
    } else {
      assert d[..k] == [];
    }
  }

  /** A non-empty quoted-string body opens with one qdtext byte or one quoted-pair. */
  lemma QuotedStringBodySplit(d: seq<byte>, k: nat) returns (x: nat)
    requires k != 0 && k in FindQuotedStringBody(d)
    ensures 0 < x <= k <= |d| && k - x in FindQuotedStringBody(d[x..])
    ensures (x == 1 && IsQdText(d[0])) || (x == 2 && d[0] == BACKSLASH && IsTextByte(d[1]))
  {
    assert k in OneOrMore(FindQdTextOrQuotedPair, d);
    x := OneOrMoreElim(FindQdTextOrQuotedPair, d, k);
    QdTextOrQuotedPairAt(d, x);
  }

  /** The quoted content up to k, given one element up to x and quoted content from x to k. */
  lemma QuotedContentJoin(d: seq<byte>, x: nat, k: nat)
    requires 0 < x <= k <= |d| && IsQuotedContent(d[x..][..k - x])
    requires (x == 1 && IsQdText(d[0])) || (x == 2 && d[0] == BACKSLASH && IsTextByte(d[1]))
    ensures IsQuotedContent(d[..k])
  {
    var s := d[..k];
    assert s[x..] == d[x..][..k - x];
    QuotedContentStep(s, x);
  }

  /** Quoted content extended at the front by one qdtext byte or one quoted-pair. */
  lemma QuotedContentStep(s: seq<byte>, x: nat)
    requires 0 < x <= |s| && IsQuotedContent(s[x..])
    requires (x == 1 && IsQdText(s[0])) || (x == 2 && s[0] == BACKSLASH && IsTextByte(s[1]))
    ensures IsQuotedContent(s)
  {
  }

  lemma {:induction false} QuotedStringBodyIntro(d: seq<byte>, k: nat)
    requires k <= |d| && IsQuotedContent(d[..k])
    ensures k in FindQuotedStringBody(d)
    decreases |d|
  {
    if k != 0 {
      var s := d[..k];
      var x: nat := if IsQdText(s[0]) && IsQuotedContent(s[1..]) then 1 else 2;
      assert s[x..] == d[x..][..k - x];
      QuotedStringBodyIntro(d[x..], k - x);
      QdTextOrQuotedPairAt(d, x);
      OneOrMoreIntro(FindQdTextOrQuotedPair, d, x, k);
    }
  }

  /** *( qdtext / quoted-pair ) DQUOTE */
  lemma BodyThenQuoteAt(d: seq<byte>, k: nat)
    ensures k in Concatenation([FindQuotedStringBody, FindDQuote], d) <==>
      1 <= k <= |d| && d[k - 1] == DQUOTE && IsQuotedContent(d[..k - 1])
  {
    if k in Concatenation([FindQuotedStringBody, FindDQuote], d) {
      BodyThenQuoteElim(d, k);
    }
    if 1 <= k <= |d| && d[k - 1] == DQUOTE && IsQuotedContent(d[..k - 1]) {
      var fs := [FindQuotedStringBody, FindDQuote];
      ListSplit2(FindQuotedStringBody, FindDQuote);
      QuotedStringBodyIntro(d, k - 1);
      ConcatenationSingle(FindDQuote, d[k - 1..], 1);
      ConcatenationIntro(fs, d, k - 1, k);
    }
  }

  lemma BodyThenQuoteElim(d: seq<byte>, k: nat)
    requires k in Concatenation([FindQuotedStringBody, FindDQuote], d)
    ensures 1 <= k <= |d| && d[k - 1] == DQUOTE && IsQuotedContent(d[..k - 1])
  {
    var fs := [FindQuotedStringBody, FindDQuote];
    ListSplit2(FindQuotedStringBody, FindDQuote);
    var x := ConcatenationElim(fs, d, k);
    var e := d[x..];
    ConcatenationSingleClass(FindDQuote, b => b == DQUOTE, e, k - x);
    QuotedStringBodyElim(d, x);
    assert k == x + 1 && d[x] == e[0];
  }

  /**
   * quoted-string matches a prefix of length at least 2 that starts and ends
   * with DQUOTE and holds quoted content between.
   */
  lemma QuotedStringAt(d: seq<byte>, k: nat)
    ensures k in FindQuotedString(d) <==>
      && 2 <= k <= |d|
      && d[0] == DQUOTE
      && d[k - 1] == DQUOTE
      && IsQuotedContent(d[1..k - 1])
  {
    var fs := [FindDQuote, FindQuotedStringBody, FindDQuote];
    ListSplit3(FindDQuote, FindQuotedStringBody, FindDQuote);
    if |d| > 0 && d[0] == DQUOTE {
      ConcatenationFixedHead(fs, d, 1, k);
      if k >= 1 {
        BodyThenQuoteAt(d[1..], k - 1);
        if k >= 2 && k <= |d| {
          assert d[1..][..k - 2] == d[1..k - 1];
          assert d[1..][k - 2] == d[k - 1];
        }
      }
    } else {
      ConcatenationEmptyHead(fs, d);
    }
  }

  // ---------------------------------------------------------------------
  // HTTP-version and status-line

  /** DIGIT */
  lemma VersionFrom7(d: seq<byte>, k: nat)
    ensures k in Concatenation([FindDigit], d) <==> k == 1 && |d| >= 1 && IsDigit(d[0])
  {
    ConcatenationSingle(FindDigit, d, k);
  }

  /** A one-byte literal matches at 1 on a buffer that opens with that byte. */
  lemma SingleByteHead(v: byte, d: seq<byte>)
    requires |d| >= 1 && d[0] == v
    ensures FindBytes([v], d) == {1}
  {
    assert d[..1] == [v];
  }

  /** "." DIGIT, on a buffer that opens with ".". */
  lemma VersionFrom6Dot(d: seq<byte>, k: nat)
    requires |d| >= 1 && d[0] == 0x2E
    ensures k in Concatenation([FindDot] + [FindDigit], d) <==> k == 2 && |d| >= 2 && IsDigit(d[1])
  {
    SingleByteHead(0x2E, d);
    ConcatenationConsAt(FindDot, [FindDigit], d, 1, k);
    if k >= 1 {
      VersionFrom7(d[1..], k - 1);
    }
  }

  /** "." DIGIT */
  lemma VersionFrom6(d: seq<byte>, k: nat)
    ensures k in Concatenation([FindDot, FindDigit], d) <==>
      k == 2 && |d| >= 2 && d[0] == 0x2E && IsDigit(d[1])
  {
    ListSplit2(FindDot, FindDigit);
    if |d| >= 1 && d[0] == 0x2E {
      VersionFrom6Dot(d, k);
    } else {
      ConcatenationConsNone(FindDot, [FindDigit], d);
    }
  }

  /** DIGIT "." DIGIT, on a buffer that opens with a digit. */
  lemma VersionFrom5Digit(d: seq<byte>, k: nat)
    requires |d| >= 1 && IsDigit(d[0])
    ensures k in Concatenation([FindDigit] + [FindDot, FindDigit], d) <==>
      k == 3 && |d| >= 3 && d[1] == 0x2E && IsDigit(d[2])
  {
    ConcatenationConsAt(FindDigit, [FindDot, FindDigit], d, 1, k);
    if k >= 1 {
      VersionFrom6(d[1..], k - 1);
    }
  }

  /** DIGIT "." DIGIT */
  lemma VersionFrom5(d: seq<byte>, k: nat)
    ensures k in Concatenation([FindDigit, FindDot, FindDigit], d) <==>
      k == 3 && |d| >= 3 && IsDigit(d[0]) && d[1] == 0x2E && IsDigit(d[2])
  {
    ListSplit3(FindDigit, FindDot, FindDigit);
    if |d| >= 1 && IsDigit(d[0]) {
      VersionFrom5Digit(d, k);
    } else {
      ConcatenationConsNone(FindDigit, [FindDot, FindDigit], d);
    }
  }

  /** "/" DIGIT "." DIGIT, on a buffer that opens with "/". */
  lemma VersionFrom4Slash(d: seq<byte>, k: nat)
    requires |d| >= 1 && d[0] == SLASH
    ensures k in Concatenation([FindSlashLiteral] + [FindDigit, FindDot, FindDigit], d) <==>
      k == 4 && |d| >= 4 && IsDigit(d[1]) && d[2] == 0x2E && IsDigit(d[3])
  {
    SingleByteHead(SLASH, d);
    ConcatenationConsAt(FindSlashLiteral, [FindDigit, FindDot, FindDigit], d, 1, k);
    if k >= 1 {
      var t := d[1..];
      VersionFrom5(t, k - 1);
      assert |t| >= 3 ==> t[0] == d[1] && t[1] == d[2] && t[2] == d[3];
    }
  }

  /** "/" DIGIT "." DIGIT */
  lemma VersionFrom4(d: seq<byte>, k: nat)
    ensures k in Concatenation([FindSlashLiteral, FindDigit, FindDot, FindDigit], d) <==>
      k == 4 && |d| >= 4 && d[0] == SLASH && IsDigit(d[1]) && d[2] == 0x2E && IsDigit(d[3])
  {
    ListSplit4(FindSlashLiteral, FindDigit, FindDot, FindDigit);
    if |d| >= 1 && d[0] == SLASH {
      VersionFrom4Slash(d, k);
    } else {
      ConcatenationConsNone(FindSlashLiteral, [FindDigit, FindDot, FindDigit], d);
    }
  }

  /** HTTP-version, on a buffer that opens with HTTP-name. */
  lemma HttpVersionAfterName(d: seq<byte>, k: nat)
    requires |d| >= 4 && d[..4] == HTTP_NAME
    ensures k in Concatenation([FindHttpName] + [FindSlashLiteral, FindDigit, FindDot, FindDigit], d) <==>
      k == 8 && |d| >= 8 && d[4] == SLASH && IsDigit(d[5]) && d[6] == 0x2E && IsDigit(d[7])
  {
    ConcatenationConsAt(FindHttpName, [FindSlashLiteral, FindDigit, FindDot, FindDigit], d, 4, k);
    if k >= 4 {
      var t := d[4..];
      VersionFrom4(t, k - 4);
      assert |t| >= 4 ==> t[0] == d[4] && t[1] == d[5] && t[2] == d[6] && t[3] == d[7];
    }
  }

  /** HTTP-version matches only at 8, and only when "HTTP" "/" DIGIT "." DIGIT opens the buffer. */
  lemma HttpVersionAt(d: seq<byte>, k: nat)
    ensures k in FindHttpVersion(d) <==> k == 8 && IsHttpVersionAt(d)
  {
    ListSplit5(FindHttpName, FindSlashLiteral, FindDigit, FindDot, FindDigit);
    if |d| >= 4 && d[..4] == HTTP_NAME {
      HttpVersionAfterName(d, k);
    } else {
      ConcatenationConsNone(FindHttpName, [FindSlashLiteral, FindDigit, FindDot, FindDigit], d);
    }
  }

  lemma HttpVersionMatches(d: seq<byte>)
    ensures FindHttpVersion(d) == if IsHttpVersionAt(d) then {8} else {}
  {
    forall k ensures k in FindHttpVersion(d) <==> k == 8 && IsHttpVersionAt(d) {
      HttpVersionAt(d, k);
    }
  }

  /**
   * The optional reason phrase that follows a status-line prefix of c bytes
   * ends at k.
   */
  ghost predicate ReasonFrom(d: seq<byte>, c: nat, k: nat)
  {
    c <= k <= |d| && k - c in FindOptionalReasonPhrase(d[c..])
  }

  /** The optional reason phrase reaches from c to any point inside the text-byte run there. */
  lemma ReasonFromRun(d: seq<byte>, c: nat, k: nat)
    requires c <= |d|
    ensures ReasonFrom(d, c, k) <==> c <= k <= c + Run(IsTextByte, d[c..])
  {
    ReasonPhraseMatches(d[c..]);
  }

  /** Reading the reason phrase after x + c bytes, from d or from d[x..]. */
  lemma ReasonShift(d: seq<byte>, x: nat, c: nat, k: nat)
    requires x <= k && x <= |d|
    ensures ReasonFrom(d[x..], c, k - x) <==> ReasonFrom(d, x + c, k)
  {
    if x + c <= |d| {
      assert d[x..][c..] == d[x + c..];
    }
  }

  /** SP [ reason-phrase ] */
  lemma StatusLineFrom12Elim(d: seq<byte>, k: nat)
    requires k in Concatenation([FindSp, FindOptionalReasonPhrase], d)
    ensures |d| >= 1 && d[0] == SP && ReasonFrom(d, 1, k)
  {
    var x := ConcatenationElim([FindSp, FindOptionalReasonPhrase], d, k);
    StatusLineFrom12At(d, x, k);
  }

  lemma StatusLineFrom12At(d: seq<byte>, x: nat, k: nat)
    requires x in FindSp(d) && x <= k && x <= |d| && k - x in Concatenation([FindOptionalReasonPhrase], d[x..])
    ensures |d| >= 1 && d[0] == SP && ReasonFrom(d, 1, k)
  {
    ConcatenationSingle(FindOptionalReasonPhrase, d[x..], k - x);
  }

  lemma StatusLineFrom12Intro(d: seq<byte>, k: nat)
    requires |d| >= 1 && d[0] == SP && ReasonFrom(d, 1, k)
    ensures k in Concatenation([FindSp, FindOptionalReasonPhrase], d)
  {
    var fs := [FindSp, FindOptionalReasonPhrase];
    ListSplit2(FindSp, FindOptionalReasonPhrase);
    ConcatenationSingle(FindOptionalReasonPhrase, d[1..], k - 1);
    ConcatenationIntro(fs, d, 1, k);
  }

  /** status-code SP [ reason-phrase ] */
  lemma StatusLineFrom9Elim(d: seq<byte>, k: nat)
    requires k in Concatenation([FindStatusCode, FindSp, FindOptionalReasonPhrase], d)
    ensures IsStatusCodeAt(d) && |d| >= 4 && d[3] == SP && ReasonFrom(d, 4, k)
  {
    var x := ConcatenationElim([FindStatusCode, FindSp, FindOptionalReasonPhrase], d, k);
    StatusLineFrom9At(d, x, k);
  }

  lemma StatusLineFrom9At(d: seq<byte>, x: nat, k: nat)
    requires x in FindStatusCode(d) && x <= k && x <= |d|
    requires k - x in Concatenation([FindSp, FindOptionalReasonPhrase], d[x..])
    ensures IsStatusCodeAt(d) && |d| >= 4 && d[3] == SP && ReasonFrom(d, 4, k)
  {
    StatusCodeOnlyAt(d, x);
    var t := d[3..];
    StatusLineFrom12Elim(t, k - 3);
    ReasonShift(d, 3, 1, k);
    assert t[0] == d[3];
  }

  lemma StatusCodeOnlyAt(d: seq<byte>, x: nat)
    requires x in FindStatusCode(d)
    ensures x == 3 && IsStatusCodeAt(d)
  {
    StatusCodeMatches(d);
  }

  lemma StatusLineFrom9Intro(d: seq<byte>, k: nat)
    requires IsStatusCodeAt(d) && |d| >= 4 && d[3] == SP && ReasonFrom(d, 4, k)
    ensures k in Concatenation([FindStatusCode, FindSp, FindOptionalReasonPhrase], d)
  {
    StatusCodeOpens(d);
    StatusLineFrom9Tail(d, k);
    assert 3 in FindStatusCode(d);
    assert 3 <= k;
    assert k - 3 in Concatenation([FindSp, FindOptionalReasonPhrase], d[3..]);
    ConcatenationJoin3(FindStatusCode, FindSp, FindOptionalReasonPhrase, d, 3, k);
  }

  lemma StatusCodeOpens(d: seq<byte>)
    requires IsStatusCodeAt(d)
    ensures 3 in FindStatusCode(d)
  {
    StatusCodeMatches(d);
  }

  lemma StatusLineFrom9Tail(d: seq<byte>, k: nat)
    requires |d| >= 4 && d[3] == SP && ReasonFrom(d, 4, k)
    ensures k - 3 in Concatenation([FindSp, FindOptionalReasonPhrase], d[3..])
  {
    ReasonShift(d, 3, 1, k);
    var t := d[3..];
    assert t[0] == d[3];
    StatusLineFrom12Intro(t, k - 3);
  }

  /** SP status-code SP [ reason-phrase ] */
  lemma StatusLineFrom8Elim(d: seq<byte>, k: nat)
    requires k in Concatenation([FindSp, FindStatusCode, FindSp, FindOptionalReasonPhrase], d)
    ensures |d| >= 5 && d[0] == SP && IsStatusCodeAt(d[1..]) && d[4] == SP && ReasonFrom(d, 5, k)
  {
    var x := ConcatenationElim([FindSp, FindStatusCode, FindSp, FindOptionalReasonPhrase], d, k);
    StatusLineFrom8At(d, x, k);
  }

  lemma StatusLineFrom8At(d: seq<byte>, x: nat, k: nat)
    requires x in FindSp(d) && x <= k && x <= |d|
    requires k - x in Concatenation([FindStatusCode, FindSp, FindOptionalReasonPhrase], d[x..])
    ensures |d| >= 5 && d[0] == SP && IsStatusCodeAt(d[1..]) && d[4] == SP && ReasonFrom(d, 5, k)
  {
    var t := d[x..];
    StatusLineFrom9Elim(t, k - x);
    ReasonShift(d, x, 4, k);
    assert x == 1 && t[3] == d[4];
  }

  lemma StatusLineFrom8Intro(d: seq<byte>, k: nat)
    requires |d| >= 5 && d[0] == SP && IsStatusCodeAt(d[1..]) && d[4] == SP && ReasonFrom(d, 5, k)
    ensures k in Concatenation([FindSp, FindStatusCode, FindSp, FindOptionalReasonPhrase], d)
  {
    StatusLineFrom8Tail(d, k);
    ConcatenationJoin4(FindSp, FindStatusCode, FindSp, FindOptionalReasonPhrase, d, 1, k);
  }

  lemma StatusLineFrom8Tail(d: seq<byte>, k: nat)
    requires |d| >= 5 && IsStatusCodeAt(d[1..]) && d[4] == SP && ReasonFrom(d, 5, k)
    ensures k - 1 in Concatenation([FindStatusCode, FindSp, FindOptionalReasonPhrase], d[1..])
  {
    var t := d[1..];
    ReasonShift(d, 1, 4, k);
    assert t[3] == d[4];
    StatusLineFrom9Intro(t, k - 1);
  }

  /** HTTP-version SP status-code SP [ reason-phrase ] */
  lemma StatusLineElim(d: seq<byte>, k: nat)
    requires k in FindStatusLine(d)
    ensures IsStatusLineOpening(d) && ReasonFrom(d, 13, k)
  {
    var x := ConcatenationElim([FindHttpVersion, FindSp, FindStatusCode, FindSp, FindOptionalReasonPhrase], d, k);
    StatusLineSplitAt(d, x, k);
  }

  lemma StatusLineSplitAt(d: seq<byte>, x: nat, k: nat)
    requires x in FindHttpVersion(d) && x <= k && x <= |d|
    requires k - x in Concatenation([FindSp, FindStatusCode, FindSp, FindOptionalReasonPhrase], d[x..])
    ensures IsStatusLineOpening(d) && ReasonFrom(d, 13, k)
  {
    HttpVersionAt(d, x);
    var t := d[x..];
    StatusLineFrom8Elim(t, k - x);
    ReasonShift(d, x, 5, k);
    assert x == 8 && t[0] == d[8] && t[1..] == d[9..] && t[4] == d[12];
  }

  lemma StatusLineIntro(d: seq<byte>, k: nat)
    requires IsStatusLineOpening(d) && ReasonFrom(d, 13, k)
    ensures k in FindStatusLine(d)
  {
    HttpVersionAt(d, 8);
    var t := d[8..];
    ReasonShift(d, 8, 5, k);
    assert t[0] == d[8] && t[1..] == d[9..] && t[4] == d[12];
    StatusLineFrom8Intro(t, k - 8);
    ConcatenationJoin5(FindHttpVersion, FindSp, FindStatusCode, FindSp, FindOptionalReasonPhrase, d, 8, k);
  }

  /**
   * status-line matches from 13 (an empty reason phrase) up to the end of
   * the reason-phrase run, once HTTP-version SP status-code SP opens the buffer.
   */
  lemma StatusLineAt(d: seq<byte>, k: nat)
    ensures k in FindStatusLine(d) <==>
      IsStatusLineOpening(d) && 13 <= k <= 13 + Run(IsTextByte, d[13..])
  {
    if k in FindStatusLine(d) {
      StatusLineElim(d, k);
    }
    if IsStatusLineOpening(d) {
      ReasonFromRun(d, 13, k);
      if 13 <= k <= 13 + Run(IsTextByte, d[13..]) {
        StatusLineIntro(d, k);
      }
    }
  }

  // ---------------------------------------------------------------------
  // Field lines and whole messages

  /** field-line matches somewhere exactly when a token followed by ":" opens the buffer. */
  lemma FieldLineNonEmpty(d: seq<byte>)
    ensures FindFieldLine(d) != {} <==> IsFieldLineOpening(d)
  {
    if k :| k in FindFieldLine(d) {
      FieldLineOpens(d, k);
    }
    if IsFieldLineOpening(d) {
      FieldLineMatchesOpening(d);
    }
  }

  lemma FieldLineOpens(d: seq<byte>, k: nat)
    requires k in FindFieldLine(d)
    ensures IsFieldLineOpening(d)
  {
    var x := FieldLineSplit(d, k);
    NameThenColon(d, x, k - x);
  }

  lemma FieldLineSplit(d: seq<byte>, k: nat) returns (x: nat)
    requires k in FindFieldLine(d)
    ensures x in FindFieldName(d) && x <= k && x <= |d| && k - x in Concatenation(FieldLineAfterName(), d[x..])
  {
    var fs := [FindFieldName, FindColon, FindOws, FindFieldValue, FindOws];
    ListSplit5(FindFieldName, FindColon, FindOws, FindFieldValue, FindOws);
    x := ConcatenationElim(fs, d, k);
  }

  lemma NameThenColon(d: seq<byte>, x: nat, j: nat)
    requires x in FindFieldName(d) && x <= |d| && j in Concatenation(FieldLineAfterName(), d[x..])
    ensures IsFieldLineOpening(d)
  {
    var e := d[x..];
    AfterNameOpensWithColon(e, j);
    assert d[x] == e[0];
    FieldNameAt(d, x);
    ColonEndsToken(d, x);
  }

  lemma FieldNameAt(d: seq<byte>, x: nat)
    requires x in FindFieldName(d)
    ensures 1 <= x <= Run(IsTChar, d)
  {
    TokenMatches(d);
  }

  /** ":" is not a tchar, so a token run that reaches a ":" ends there. */
  lemma ColonEndsToken(d: seq<byte>, x: nat)
    requires 1 <= x < |d| && d[x] == COLON && x <= Run(IsTChar, d)
    ensures IsFieldLineOpening(d)
  {
    assert !IsTChar(COLON);
    RunEndsAt(IsTChar, d, x);
  }

  /** The elements of field-line after field-name. */
  function FieldLineAfterName(): seq<Finder>
  {
    [FindColon, FindOws, FindFieldValue, FindOws]
  }

  lemma AfterNameOpensWithColon(e: seq<byte>, j: nat)
    requires j in Concatenation(FieldLineAfterName(), e)
    ensures |e| > 0 && e[0] == COLON
  {
    var _ := ConcatenationElim(FieldLineAfterName(), e, j);
  }

  /** The opening token and ":" already make a field line: OWS, field-value, OWS may all be empty. */
  lemma FieldLineMatchesOpening(d: seq<byte>)
    requires IsFieldLineOpening(d)
    ensures FindFieldLine(d) != {}
  {
    var n := Run(IsTChar, d);
    FieldNameTakesRun(d);
    AfterNameMatchesColon(d[n..]);
    FieldLineJoin(d, n, n + 1);
  }

  /** A non-empty run of tchar bytes is a field-name match. */
  lemma FieldNameTakesRun(d: seq<byte>)
    requires Run(IsTChar, d) >= 1
    ensures Run(IsTChar, d) in FindFieldName(d)
  {
    TokenMatches(d);
  }

  /** A field-name match followed by a match of the rest of the field line makes a field line. */
  lemma FieldLineJoin(d: seq<byte>, x: nat, k: nat)
    requires x in FindFieldName(d) && x <= k && x <= |d| && k - x in Concatenation(FieldLineAfterName(), d[x..])
    ensures k in FindFieldLine(d)
  {
    var fs := [FindFieldName, FindColon, FindOws, FindFieldValue, FindOws];
    ListSplit5(FindFieldName, FindColon, FindOws, FindFieldValue, FindOws);
    ConcatenationIntro(fs, d, x, k);
  }

  lemma AfterNameMatchesColon(e: seq<byte>)
    requires |e| > 0 && e[0] == COLON
    ensures 1 in Concatenation(FieldLineAfterName(), e)
  {
    var fs2 := [FindOws, FindFieldValue, FindOws];
    ListSplit4(FindColon, FindOws, FindFieldValue, FindOws);
    assert forall i, t :: 0 <= i < |fs2| ==> 0 in fs2[i](t);
    ConcatenationEmptyMatch(fs2, e[1..]);
    ConcatenationIntro(FieldLineAfterName(), e, 1, 1);
  }

  /** A message that matches at all matches the whole buffer, its body taking the rest. */
  lemma HttpMessageReachesEnd(u: UriGrammar, d: seq<byte>, k: nat)
    requires k in FindHttpMessage(u, d)
    ensures |d| in FindHttpMessage(u, d)
  {
    var fs := [StartLineFinder(u), FindCrLf, FindFieldLinesCrLf, FindCrLf, FindOptionalMessageBody];
    forall e ensures |e| in FindOptionalMessageBody(e) {
      MessageBodyMatches(e);
    }
    ConcatenationReachesEnd(fs, d, k);
  }

  /** Every absolute-path match begins with "/". */
  lemma AbsolutePathStartsWithSlash(u: UriGrammar, d: seq<byte>, k: nat)
    requires k in FindAbsolutePath(u, d)
    ensures 1 <= k <= |d| && d[0] == SLASH
  {
    var x := OneOrMoreElim(SlashSegment(u), d, k);
    var _ := ConcatenationElim([FindSlash, u.segment], d, x);
  }
}
