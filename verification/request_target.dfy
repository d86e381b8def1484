/**
 * What the request target inherits from the URI grammar: when every URI
 * production decides a match from the bytes it covers and never covers an
 * SP, the four request-target forms do the same.  The request-line parser
 * depends on both facts to find the end of the target.
 */
module RequestTarget {
  import opened Abnf
  import opened Grammar

  lemma ByteLocal(v: byte)
    ensures Local(e => FindByte(v, e))
  {
    forall d: seq<byte>, e: seq<byte>, k: nat | k <= |d|
      ensures k in FindByte(v, d) <==> k in FindByte(v, d + e)
    {
      if |d| > 0 {
        assert (d + e)[0] == d[0];
      }
    }
  }

  lemma ByteAvoids(v: byte, c: byte)
    requires v != c
    ensures Avoids(e => FindByte(v, e), c)
  {
    forall d: seq<byte>, k: nat | k in FindByte(v, d) && k <= |d|
      ensures c !in d[..k]
    {
      assert d[..k] == [v];
    }
  }

  /** The one-byte terminals inside a request target. */
  lemma TerminalsLocal()
    ensures Local(FindSlash) && Local(FindQuestionMark) && Local(FindColon)
    ensures Local(e => FindAsteriskForm(e))
  {
    ByteLocal(SLASH);
    ByteLocal(COLON);
    ByteLocal(0x2A);
    ByteLocal(0x3F);
    assert forall e :: FindQuestionMark(e) == FindByte(0x3F, e) by {
      forall e ensures FindQuestionMark(e) == FindByte(0x3F, e) {
        if |e| > 0 {
          assert (e[..1] == [0x3F]) == (e[0] == 0x3F);
        }
      }
    }
  }

  lemma TerminalsAvoidSp()
    ensures Avoids(FindSlash, SP) && Avoids(FindQuestionMark, SP) && Avoids(FindColon, SP)
    ensures Avoids(e => FindAsteriskForm(e), SP)
  {
    ByteAvoids(SLASH, SP);
    ByteAvoids(COLON, SP);
    ByteAvoids(0x2A, SP);
    ByteAvoids(0x3F, SP);
    assert forall e :: FindQuestionMark(e) == FindByte(0x3F, e) by {
      forall e ensures FindQuestionMark(e) == FindByte(0x3F, e) {
        if |e| > 0 {
          assert (e[..1] == [0x3F]) == (e[0] == 0x3F);
        }
      }
    }
  }

  /** A concatenation of local rules, as a rule. */
  lemma ConcatenationIsLocal(fs: seq<Finder>)
    requires forall i :: 0 <= i < |fs| ==> Local(fs[i])
    ensures Local(e => Concatenation(fs, e))
  {
    forall d: seq<byte>, e: seq<byte>, k: nat | k <= |d|
      ensures k in Concatenation(fs, d) <==> k in Concatenation(fs, d + e)
    {
      ConcatenationLocal(fs, d, e, k);
    }
  }

  lemma ConcatenationAvoidsAll(fs: seq<Finder>, c: byte)
    requires forall i :: 0 <= i < |fs| ==> Avoids(fs[i], c)
    ensures Avoids(e => Concatenation(fs, e), c)
  {
    forall d: seq<byte>, k: nat | k in Concatenation(fs, d) && k <= |d|
      ensures c !in d[..k]
    {
      ConcatenationAvoids(fs, c, d, k);
    }
  }

  lemma SlashSegmentLocal(u: UriGrammar)
    requires UriLocal(u)
    ensures Local(SlashSegment(u))
  {
    TerminalsLocal();
    ConcatenationIsLocal([FindSlash, u.segment]);
  }

  lemma SlashSegmentAvoids(u: UriGrammar)
    requires UriAvoids(u, SP)
    ensures Avoids(SlashSegment(u), SP)
  {
    TerminalsAvoidSp();
    ConcatenationAvoidsAll([FindSlash, u.segment], SP);
  }

  lemma AbsolutePathLocal(u: UriGrammar)
    requires UriLocal(u)
    ensures Local(AbsolutePathFinder(u))
  {
    SlashSegmentLocal(u);
    forall d: seq<byte>, e: seq<byte>, k: nat | k <= |d|
      ensures k in FindAbsolutePath(u, d) <==> k in FindAbsolutePath(u, d + e)
    {
      RepetitionLocal(SlashSegment(u), d, e, k);
    }
  }

  lemma AbsolutePathAvoids(u: UriGrammar)
    requires UriAvoids(u, SP)
    ensures Avoids(AbsolutePathFinder(u), SP)
  {
    SlashSegmentAvoids(u);
    forall d: seq<byte>, k: nat | k in FindAbsolutePath(u, d) && k <= |d|
      ensures SP !in d[..k]
    {
      assert k in ZeroOrMore(SlashSegment(u), d);
      RepetitionAvoids(SlashSegment(u), SP, d, k);
    }
  }

  lemma OptionalQueryLocal(u: UriGrammar)
    requires UriLocal(u)
    ensures Local(OptionalQuery(u))
  {
    TerminalsLocal();
    ConcatenationIsLocal([FindQuestionMark, u.query]);
    assert Local(QueryPart(u));
  }

  lemma OptionalQueryAvoids(u: UriGrammar)
    requires UriAvoids(u, SP)
    ensures Avoids(OptionalQuery(u), SP)
  {
    TerminalsAvoidSp();
    ConcatenationAvoidsAll([FindQuestionMark, u.query], SP);
    assert Avoids(QueryPart(u), SP);
    forall d: seq<byte>, k: nat | k in OptionalQuery(u)(d) && k <= |d|
      ensures SP !in d[..k]
    {
      if k != 0 {
        assert k in QueryPart(u)(d);
      }
    }
  }

  lemma OriginFormLocal(u: UriGrammar)
    requires UriLocal(u)
    ensures Local(e => FindOriginForm(u, e))
  {
    AbsolutePathLocal(u);
    OptionalQueryLocal(u);
    var fs := [AbsolutePathFinder(u), OptionalQuery(u)];
    forall d: seq<byte>, e: seq<byte>, k: nat | k <= |d|
      ensures k in FindOriginForm(u, d) <==> k in FindOriginForm(u, d + e)
    {
      ConcatenationLocal(fs, d, e, k);
    }
  }

  lemma AuthorityFormLocal(u: UriGrammar)
    requires UriLocal(u)
    ensures Local(e => FindAuthorityForm(u, e))
  {
    TerminalsLocal();
    assert Local(UriHostFinder(u));
    var fs := [UriHostFinder(u), FindColon, u.port];
    forall d: seq<byte>, e: seq<byte>, k: nat | k <= |d|
      ensures k in FindAuthorityForm(u, d) <==> k in FindAuthorityForm(u, d + e)
    {
      ConcatenationLocal(fs, d, e, k);
    }
  }

  lemma OriginFormAvoids(u: UriGrammar)
    requires UriAvoids(u, SP)
    ensures Avoids(e => FindOriginForm(u, e), SP)
  {
    AbsolutePathAvoids(u);
    OptionalQueryAvoids(u);
    var fs := [AbsolutePathFinder(u), OptionalQuery(u)];
    forall d: seq<byte>, k: nat | k in FindOriginForm(u, d) && k <= |d|
      ensures SP !in d[..k]
    {
      ConcatenationAvoids(fs, SP, d, k);
    }
  }

  lemma AuthorityFormAvoids(u: UriGrammar)
    requires UriAvoids(u, SP)
    ensures Avoids(e => FindAuthorityForm(u, e), SP)
  {
    TerminalsAvoidSp();
    assert Avoids(UriHostFinder(u), SP);
    var fs := [UriHostFinder(u), FindColon, u.port];
    forall d: seq<byte>, k: nat | k in FindAuthorityForm(u, d) && k <= |d|
      ensures SP !in d[..k]
    {
      ConcatenationAvoids(fs, SP, d, k);
    }
  }

  /**
   * Whether request-target matches at k depends only on the first k bytes,
   * when the same holds for every URI production.
   */
  lemma RequestTargetLocal(u: UriGrammar)
    requires UriLocal(u)
    ensures Local(RequestTargetFinder(u))
  {
    OriginFormLocal(u);
    AuthorityFormLocal(u);
    TerminalsLocal();
    forall d: seq<byte>, e: seq<byte>, k: nat | k <= |d|
      ensures k in FindRequestTarget(u, d) <==> k in FindRequestTarget(u, d + e)
    {
      LocalAt(e => FindOriginForm(u, e), d, e, k);
      LocalAt(e => FindAuthorityForm(u, e), d, e, k);
      LocalAt(e => FindAsteriskForm(e), d, e, k);
      LocalAt(u.absoluteUri, d, e, k);
    }
  }

  /** No request-target match covers an SP, when no URI production's match does. */
  lemma RequestTargetAvoidsSp(u: UriGrammar)
    requires UriAvoids(u, SP)
    ensures Avoids(RequestTargetFinder(u), SP)
  {
    OriginFormAvoids(u);
    AuthorityFormAvoids(u);
    TerminalsAvoidSp();
  }

  /** Every request-target match lies inside the buffer, when every URI match does. */
  lemma RequestTargetBounded(u: UriGrammar)
    requires UriBounded(u)
    ensures Bounded(RequestTargetFinder(u))
  {
    forall d: seq<byte>, k: nat | k in FindRequestTarget(u, d)
      ensures k <= |d|
    {
      if k in FindAbsoluteForm(u, d) {
        assert Bounded(u.absoluteUri);
        assert k in u.absoluteUri(d);
      } else if k in FindAsteriskForm(d) {
        assert k == 1;
      } else if k in FindOriginForm(u, d) {
      } else {
        assert k in FindAuthorityForm(u, d);
      }
    }
  }
}
