/**
 * The RFC 5234 operators the grammar is built from, over byte buffers.
 *
 * A finder maps a buffer to its match-set: the set of every prefix length
 * at which the rule matches the buffer read from index 0.  The operators
 * below give the match-set of a composite rule from the match-sets of its
 * parts: concatenation (RFC 5234 section 3.1), alternatives (section 3.2,
 * written as set union `+`), value ranges (section 3.4), variable
 * repetition (section 3.6), specific repetition (section 3.7) and optional
 * sequences (section 3.8).
 */
module Abnf {

  type byte = x: int | 0 <= x < 256

  /** A recognizer: buffer to match-set. */
  type Finder = seq<byte> -> set<nat>

  const HTAB: byte := 0x09
  const LF: byte := 0x0A
  const CR: byte := 0x0D
  const SP: byte := 0x20
  const DQUOTE: byte := 0x22
  const CRLF: seq<byte> := [CR, LF]

  /** The offsets lo, lo + 1, ..., hi. */
  function Upto(lo: nat, hi: nat): (r: set<nat>)
    ensures forall k :: k in r <==> lo <= k <= hi
    decreases hi
  {
    if hi < lo then {} else if hi == 0 then {0} else Upto(lo, hi - 1) + {hi}
  }

  /** A rule matches at no offset beyond the end of any buffer. */
  ghost predicate Bounded(f: Finder)
  {
    forall d: seq<byte>, k: nat :: k in f(d) ==> k <= |d|
  }

  /** Whether a rule matches at offset k depends only on the first k bytes. */
  ghost predicate Local(f: Finder)
  {
    forall d: seq<byte>, e: seq<byte>, k: nat {:trigger k in f(d + e)} ::
      k <= |d| ==> (k in f(d) <==> k in f(d + e))
  }

  /** No match of the rule consumes the byte c. */
  ghost predicate Avoids(f: Finder, c: byte)
  {
    forall d: seq<byte>, k: nat :: k in f(d) && k <= |d| ==> c !in d[..k]
  }

  // ---------------------------------------------------------------------
  // Terminals

  /** A one-byte terminal: the first byte must satisfy p. */
  function ByteClass(p: byte -> bool, d: seq<byte>): set<nat>
  {
    if |d| > 0 && p(d[0]) then {1} else {}
  }

  /** %xNN: exactly the byte v. */
  function FindByte(v: byte, d: seq<byte>): (r: set<nat>)
    ensures r == ByteClass(b => b == v, d)
  {
    if |d| > 0 && d[0] == v then {1} else {}
  }

  /** A literal byte string (case-sensitive). */
  function FindBytes(lit: seq<byte>, d: seq<byte>): (r: set<nat>)
    ensures r == {} || (r == {|lit|} && |lit| <= |d| && d[..|lit|] == lit)
    ensures |lit| <= |d| && d[..|lit|] == lit ==> r == {|lit|}
  {
    if |lit| <= |d| && d[..|lit|] == lit then {|lit|} else {}
  }

  /** %xLO-HI: one byte in the closed range. */
  function FindValueRange(lo: byte, hi: byte, d: seq<byte>): (r: set<nat>)
    ensures r == ByteClass(b => lo <= b <= hi, d)
  {
    if |d| > 0 && lo <= d[0] <= hi then {1} else {}
  }

  function FindSp(d: seq<byte>): set<nat> { FindByte(SP, d) }

  function FindHTab(d: seq<byte>): set<nat> { FindByte(HTAB, d) }

  function FindDQuote(d: seq<byte>): set<nat> { FindByte(DQUOTE, d) }

  function FindCrLf(d: seq<byte>): set<nat> { FindBytes(CRLF, d) }

  predicate IsDigit(b: byte) { 0x30 <= b <= 0x39 }

  predicate IsAlpha(b: byte) { 0x41 <= b <= 0x5A || 0x61 <= b <= 0x7A }

  predicate IsVChar(b: byte) { 0x21 <= b <= 0x7E }

  predicate IsOctet(b: byte) { true }

  function FindDigit(d: seq<byte>): (r: set<nat>)
    ensures r == ByteClass(IsDigit, d)
  {
    FindValueRange(0x30, 0x39, d)
  }

  function FindAlpha(d: seq<byte>): (r: set<nat>)
    ensures r == ByteClass(IsAlpha, d)
  {
    FindValueRange(0x41, 0x5A, d) + FindValueRange(0x61, 0x7A, d)
  }

  function FindVChar(d: seq<byte>): (r: set<nat>)
    ensures r == ByteClass(IsVChar, d)
  {
    FindValueRange(0x21, 0x7E, d)
  }

  function FindOctet(d: seq<byte>): (r: set<nat>)
    ensures r == ByteClass(IsOctet, d)
  {
    FindValueRange(0x00, 0xFF, d)
  }

  // ---------------------------------------------------------------------
  // Operators

  /**
   * Concatenation of the rules fs, in order: every a + b where a is a match
   * of fs[0] and b a match of the rest on the buffer after a.
   */
  function Concatenation(fs: seq<Finder>, d: seq<byte>): (r: set<nat>)
    ensures forall k :: k in r ==> k <= |d|
    decreases |fs|
  {
    if |fs| == 0 then {0}
    else
      set x: nat, y: nat | x in fs[0](d) && x <= |d| && y in Concatenation(fs[1..], d[x..]) :: x + y
  }

  /** [ rule ]: the empty match is always added. */
  function Optional(f: Finder, d: seq<byte>): (r: set<nat>)
    ensures 0 in r
    ensures forall k :: k in r <==> k == 0 || k in f(d)
  {
    {0} + f(d)
  }

  /** *rule: zero or more repetitions. */
  function ZeroOrMore(f: Finder, d: seq<byte>): (r: set<nat>)
    ensures 0 in r
    ensures forall k :: k in r ==> k <= |d|
    decreases |d|, 1
  {
    {0} + OneOrMore(f, d)
  }

  /**
   * 1*rule: one or more repetitions.  A repeated element that matches the
   * empty prefix adds no new offset, so only non-empty steps are taken.
   */
  function OneOrMore(f: Finder, d: seq<byte>): (r: set<nat>)
    ensures forall k :: k in r ==> 1 <= k <= |d|
    decreases |d|, 0
  {
    set x: nat, y: nat | x in f(d) && 0 < x <= |d| && y in ZeroOrMore(f, d[x..]) :: x + y
  }

  /** n rule: exactly n repetitions. */
  function SpecificRepetition(n: nat, f: Finder, d: seq<byte>): (r: set<nat>)
    ensures forall k :: k in r ==> k <= |d|
  {
    if n == 0 then {0}
    else
      var m := n - 1;
      set x: nat, y: nat | x in f(d) && x <= |d| && y in SpecificRepetition(m, f, d[x..]) :: x + y
  }

  // ---------------------------------------------------------------------
  // Committing to one match

  /** The buffer split at the committed offset. */
  datatype ParseResult = ParseResult(parsed: seq<byte>, remaining: seq<byte>)

  /** The largest element of m that is at most n, or -1 when there is none. */
  function LargestUpTo(m: set<nat>, n: nat): (r: int)
    ensures -1 <= r <= n
    ensures r >= 0 ==> r in m
    ensures forall k :: k in m && k <= n ==> k <= r
  {
    if n in m then n
    else if n == 0 then -1
    else LargestUpTo(m, n - 1)
  }

  /** The smallest element of m in [i, n], or -1 when there is none. */
  function SmallestFrom(m: set<nat>, i: nat, n: nat): (r: int)
    ensures r == -1 || (i <= r <= n && r in m)
    ensures forall k :: k in m && i <= k <= n ==> r != -1 && r <= k
    decreases n + 1 - i
  {
    if i > n then -1
    else if i in m then i
    else SmallestFrom(m, i + 1, n)
  }

  /**
   * Longest-match policy: split d at the largest offset of the match-set
   * f(d).  Nothing is parsed when f(d) holds no offset in [1, |d|].
   */
  function ParseLongest(d: seq<byte>, f: Finder): (r: ParseResult)
    ensures r.parsed + r.remaining == d
  {
    var k := LargestUpTo(f(d), |d|);
    if k <= 0 then ParseResult([], d) else ParseResult(d[..k], d[k..])
  }

  /** What the longest-match policy commits to: a match, and none longer in d. */
  lemma LongestSpec(d: seq<byte>, f: Finder)
    ensures |ParseLongest(d, f).parsed| > 0 ==> |ParseLongest(d, f).parsed| in f(d)
    ensures forall k :: k in f(d) && 0 < k <= |d| ==> k <= |ParseLongest(d, f).parsed|
  {
  }

  /**
   * Shortest-match policy: split d at the smallest offset of f(d).  Nothing
   * is parsed when f(d) holds no offset in [0, |d|] or when that offset is 0.
   */
  function ParseShortest(d: seq<byte>, f: Finder): (r: ParseResult)
    ensures r.parsed + r.remaining == d
  {
    var k := SmallestFrom(f(d), 0, |d|);
    if k <= 0 then ParseResult([], d) else ParseResult(d[..k], d[k..])
  }

  /** What the shortest-match policy commits to: a match, and none shorter. */
  lemma ShortestSpec(d: seq<byte>, f: Finder)
    ensures |ParseShortest(d, f).parsed| > 0 ==>
      |ParseShortest(d, f).parsed| in f(d) && forall k :: k in f(d) ==> |ParseShortest(d, f).parsed| <= k
    ensures |ParseShortest(d, f).parsed| == 0 ==> 0 in f(d) || forall k :: k in f(d) ==> k > |d|
  {
  }

  /** The longest match is n when n is a match and nothing longer fits in d. */
  lemma LongestIs(d: seq<byte>, f: Finder, n: nat)
    requires 0 < n <= |d| && n in f(d)
    requires forall k :: k in f(d) && k <= |d| ==> k <= n
    ensures ParseLongest(d, f) == ParseResult(d[..n], d[n..])
  {
    LongestSpec(d, f);
    var r := ParseLongest(d, f);
    assert |r.parsed| == n;
    assert r.parsed == d[..n];
  }

  /** The longest match is empty when no match in [1, |d|] exists. */
  lemma LongestNone(d: seq<byte>, f: Finder)
    requires forall k :: k in f(d) && k <= |d| ==> k == 0
    ensures ParseLongest(d, f) == ParseResult([], d)
  {
    LongestSpec(d, f);
  }

  /** The shortest match is n when n is a match and nothing shorter is. */
  lemma ShortestIs(d: seq<byte>, f: Finder, n: nat)
    requires 0 < n <= |d| && n in f(d)
    requires forall k :: k in f(d) ==> n <= k
    ensures ParseShortest(d, f) == ParseResult(d[..n], d[n..])
  {
    ShortestSpec(d, f);
    var r := ParseShortest(d, f);
    assert |r.parsed| == n;
    assert r.parsed == d[..n];
  }

  /** The longest match of a rule that matches exactly the offsets lo..n. */
  lemma LongestOfUpto(d: seq<byte>, f: Finder, lo: nat, n: nat)
    requires n <= |d| && f(d) == Upto(lo, n)
    ensures ParseLongest(d, f) == if n == 0 || n < lo then ParseResult([], d) else ParseResult(d[..n], d[n..])
  {
    if n == 0 || n < lo {
      LongestNone(d, f);
    } else {
      LongestIs(d, f, n);
    }
  }

  /** The longest match of a one-byte terminal. */
  lemma LongestOfByte(d: seq<byte>, f: Finder, v: byte)
    requires f(d) == FindByte(v, d)
    ensures ParseLongest(d, f) == if |d| > 0 && d[0] == v then ParseResult([v], d[1..]) else ParseResult([], d)
  {
    if |d| > 0 && d[0] == v {
      LongestIs(d, f, 1);
      assert d[..1] == [v];
    } else {
      LongestNone(d, f);
    }
  }

  /** The shortest match of a one-byte terminal. */
  lemma ShortestOfByte(d: seq<byte>, f: Finder, v: byte)
    requires f(d) == FindByte(v, d)
    ensures ParseShortest(d, f) == if |d| > 0 && d[0] == v then ParseResult([v], d[1..]) else ParseResult([], d)
  {
    ShortestSpec(d, f);
    if |d| > 0 && d[0] == v {
      ShortestIs(d, f, 1);
      assert d[..1] == [v];
    }
  }

  /** The shortest match of a non-empty literal. */
  lemma ShortestOfBytes(d: seq<byte>, f: Finder, lit: seq<byte>)
    requires |lit| > 0 && f(d) == FindBytes(lit, d)
    ensures ParseShortest(d, f) ==
      if |lit| <= |d| && d[..|lit|] == lit then ParseResult(lit, d[|lit|..]) else ParseResult([], d)
  {
    ShortestSpec(d, f);
    if |lit| <= |d| && d[..|lit|] == lit {
      ShortestIs(d, f, |lit|);
    }
  }

  // ---------------------------------------------------------------------
  // Membership, one step at a time

  /** A match of a concatenation splits after a match x of its first rule. */
  lemma ConcatenationElim(fs: seq<Finder>, d: seq<byte>, k: nat) returns (x: nat)
    requires |fs| > 0 && k in Concatenation(fs, d)
    ensures x in fs[0](d) && x <= k && x <= |d| && k - x in Concatenation(fs[1..], d[x..])
  {
    var a: nat, y: nat :| a in fs[0](d) && a <= |d| && y in Concatenation(fs[1..], d[a..]) && k == a + y;
    x := a;
  }

  lemma ConcatenationIntro(fs: seq<Finder>, d: seq<byte>, x: nat, k: nat)
    requires |fs| > 0 && x in fs[0](d) && x <= k && x <= |d| && k - x in Concatenation(fs[1..], d[x..])
    ensures k in Concatenation(fs, d)
  {
    var y: nat := k - x;
    assert k == x + y;
  }

  /** A match of a repetition splits after a non-empty first step x. */
  lemma OneOrMoreElim(f: Finder, d: seq<byte>, k: nat) returns (x: nat)
    requires k in OneOrMore(f, d)
    ensures x in f(d) && 0 < x <= k && x <= |d| && k - x in ZeroOrMore(f, d[x..])
  {
    var a: nat, y: nat :| a in f(d) && 0 < a <= |d| && y in ZeroOrMore(f, d[a..]) && k == a + y;
    x := a;
  }

  lemma OneOrMoreIntro(f: Finder, d: seq<byte>, x: nat, k: nat)
    requires x in f(d) && 0 < x <= k && x <= |d| && k - x in ZeroOrMore(f, d[x..])
    ensures k in OneOrMore(f, d)
  {
    var y: nat := k - x;
    assert k == x + y;
  }

  lemma SpecificRepetitionElim(n: nat, f: Finder, d: seq<byte>, k: nat) returns (x: nat)
    requires n > 0 && k in SpecificRepetition(n, f, d)
    ensures x in f(d) && x <= k && x <= |d| && k - x in SpecificRepetition(n - 1, f, d[x..])
  {
    var a: nat, y: nat :| a in f(d) && a <= |d| && y in SpecificRepetition(n - 1, f, d[a..]) && k == a + y;
    x := a;
  }

  lemma SpecificRepetitionIntro(n: nat, f: Finder, d: seq<byte>, x: nat, k: nat)
    requires n > 0 && x in f(d) && x <= k && x <= |d| && k - x in SpecificRepetition(n - 1, f, d[x..])
    ensures k in SpecificRepetition(n, f, d)
  {
    var y: nat := k - x;
    assert k == x + y;
  }

  /** A concatenation whose first element matches at exactly one offset. */
  lemma ConcatenationFixedHead(fs: seq<Finder>, d: seq<byte>, n: nat, k: nat)
    requires |fs| > 0 && fs[0](d) == {n} && n <= |d|
    ensures k in Concatenation(fs, d) <==> n <= k && k - n in Concatenation(fs[1..], d[n..])
  {
    if k in Concatenation(fs, d) {
      var _ := ConcatenationElim(fs, d, k);
    }
    if n <= k && k - n in Concatenation(fs[1..], d[n..]) {
      ConcatenationIntro(fs, d, n, k);
    }
  }

  /** A non-empty sequence is its first element followed by the rest. */
  lemma HeadTail<T>(s: seq<T>)
    requires |s| > 0
    ensures [s[0]] + s[1..] == s
  {
  }

  /** A list of rules, split after its first rule. */
  lemma ListSplit2<T>(a: T, b: T)
    ensures [a, b] == [a] + [b] && [a, b][1..] == [b]
  {
  }

  lemma ListSplit3<T>(a: T, b: T, c: T)
    ensures [a, b, c] == [a] + [b, c] && [a, b, c][1..] == [b, c]
  {
  }

  lemma ListSplit4<T>(a: T, b: T, c: T, e: T)
    ensures [a, b, c, e] == [a] + [b, c, e] && [a, b, c, e][1..] == [b, c, e]
  {
  }

  lemma ListSplit5<T>(a: T, b: T, c: T, e: T, g: T)
    ensures [a, b, c, e, g] == [a] + [b, c, e, g] && [a, b, c, e, g][1..] == [b, c, e, g]
  {
  }

  /** ConcatenationIntro for lists of three, four and five rules. */
  lemma ConcatenationJoin3(a: Finder, b: Finder, c: Finder, d: seq<byte>, x: nat, k: nat)
    requires x in a(d) && x <= k && x <= |d| && k - x in Concatenation([b, c], d[x..])
    ensures k in Concatenation([a, b, c], d)
  {
    ListSplit3(a, b, c);
    ConcatenationIntro([a, b, c], d, x, k);
  }

  lemma ConcatenationJoin4(a: Finder, b: Finder, c: Finder, e: Finder, d: seq<byte>, x: nat, k: nat)
    requires x in a(d) && x <= k && x <= |d| && k - x in Concatenation([b, c, e], d[x..])
    ensures k in Concatenation([a, b, c, e], d)
  {
    ListSplit4(a, b, c, e);
    ConcatenationIntro([a, b, c, e], d, x, k);
  }

  lemma ConcatenationJoin5(a: Finder, b: Finder, c: Finder, e: Finder, g: Finder, d: seq<byte>, x: nat, k: nat)
    requires x in a(d) && x <= k && x <= |d| && k - x in Concatenation([b, c, e, g], d[x..])
    ensures k in Concatenation([a, b, c, e, g], d)
  {
    ListSplit5(a, b, c, e, g);
    ConcatenationIntro([a, b, c, e, g], d, x, k);
  }

  /** ConcatenationFixedHead, with the list written as its first rule and the rest. */
  lemma ConcatenationConsAt(f: Finder, tail: seq<Finder>, d: seq<byte>, n: nat, k: nat)
    requires f(d) == {n} && n <= |d|
    ensures k in Concatenation([f] + tail, d) <==> n <= k && k - n in Concatenation(tail, d[n..])
  {
    var fs := [f] + tail;
    assert fs[0] == f && fs[1..] == tail;
    ConcatenationFixedHead(fs, d, n, k);
  }

  /** ConcatenationIntro, with the list written as its first rule and the rest. */
  lemma ConcatenationConsIntro(f: Finder, tail: seq<Finder>, d: seq<byte>, x: nat, k: nat)
    requires x in f(d) && x <= k && x <= |d| && k - x in Concatenation(tail, d[x..])
    ensures k in Concatenation([f] + tail, d)
  {
    var fs := [f] + tail;
    assert fs[0] == f && fs[1..] == tail;
    ConcatenationIntro(fs, d, x, k);
  }

  /** ConcatenationEmptyHead, with the list written as its first rule and the rest. */
  lemma ConcatenationConsNone(f: Finder, tail: seq<Finder>, d: seq<byte>)
    requires f(d) == {}
    ensures Concatenation([f] + tail, d) == {}
  {
    var fs := [f] + tail;
    assert fs[0] == f;
    ConcatenationEmptyHead(fs, d);
  }

  /** A concatenation whose first element does not match does not match. */
  lemma ConcatenationEmptyHead(fs: seq<Finder>, d: seq<byte>)
    requires |fs| > 0 && fs[0](d) == {}
    ensures Concatenation(fs, d) == {}
  {
    forall k | k in Concatenation(fs, d) ensures false {
      var _ := ConcatenationElim(fs, d, k);
    }
  }

  /** A concatenation of one rule is that rule, cut at the end of the buffer. */
  lemma ConcatenationSingle(f: Finder, d: seq<byte>, k: nat)
    ensures k in Concatenation([f], d) <==> k in f(d) && k <= |d|
  {
    assert [f][1..] == [];
    if k in Concatenation([f], d) {
      var _ := ConcatenationElim([f], d, k);
    }
    if k in f(d) && k <= |d| {
      ConcatenationIntro([f], d, k, k);
    }
  }

  /** A concatenation of one one-byte class matches only at 1, on a byte of the class. */
  lemma ConcatenationSingleClass(f: Finder, p: byte -> bool, d: seq<byte>, k: nat)
    requires f(d) == ByteClass(p, d)
    ensures k in Concatenation([f], d) <==> k == 1 && |d| >= 1 && p(d[0])
  {
    ConcatenationSingle(f, d, k);
  }

  /**
   * When the last rule always reaches the end of its buffer, a concatenation
   * that matches at all matches the whole buffer.
   */
  lemma {:induction false} ConcatenationReachesEnd(fs: seq<Finder>, d: seq<byte>, k: nat)
    requires |fs| > 0 && forall e :: |e| in fs[|fs| - 1](e)
    requires k in Concatenation(fs, d)
    ensures |d| in Concatenation(fs, d)
    decreases |fs|
  {
    if |fs| == 1 {
      assert |d| in fs[0](d);
      ConcatenationSingle(fs[0], d, |d|);
    } else {
      var x := ConcatenationElim(fs, d, k);
      ReachesEndStep(fs, fs[1..], d, x, k - x);
    }
  }

  lemma {:induction false} ReachesEndStep(fs: seq<Finder>, rest: seq<Finder>, d: seq<byte>, x: nat, j: nat)
    requires |fs| > 1 && rest == fs[1..] && forall e :: |e| in fs[|fs| - 1](e)
    requires x in fs[0](d) && x <= |d| && j in Concatenation(rest, d[x..])
    ensures |d| in Concatenation(fs, d)
    decreases |fs|, 0
  {
    assert rest[|rest| - 1] == fs[|fs| - 1];
    ConcatenationReachesEnd(rest, d[x..], j);
    ConcatenationIntro(fs, d, x, |d|);
  }

  // ---------------------------------------------------------------------
  // Locality and avoided bytes are preserved by the operators

  lemma LocalAt(f: Finder, d: seq<byte>, e: seq<byte>, k: nat)
    requires Local(f) && k <= |d|
    ensures k in f(d) <==> k in f(d + e)
  {
  }

  /** A match of a rule that avoids c stops at or before the first c. */
  lemma AvoidsBound(f: Finder, c: byte, d: seq<byte>, k: nat, x: nat)
    requires Avoids(f, c) && k in f(d) && k <= |d| && x < |d| && d[x] == c
    ensures k <= x
  {
  }

  lemma LocalTail(fs: seq<Finder>)
    requires |fs| > 0 && forall i :: 0 <= i < |fs| ==> Local(fs[i])
    ensures Local(fs[0])
    ensures forall i :: 0 <= i < |fs[1..]| ==> Local(fs[1..][i])
  {
    forall i | 0 <= i < |fs[1..]| ensures Local(fs[1..][i]) { assert fs[1..][i] == fs[i + 1]; }
  }

  lemma {:induction false} ConcatenationLocal(fs: seq<Finder>, d: seq<byte>, e: seq<byte>, k: nat)
    requires forall i :: 0 <= i < |fs| ==> Local(fs[i])
    requires k <= |d|
    ensures k in Concatenation(fs, d) <==> k in Concatenation(fs, d + e)
    decreases |fs|, 1
  {
    if |fs| > 0 {
      if k in Concatenation(fs, d) {
        ConcatenationLocalGrow(fs, d, e, k);
      }
      if k in Concatenation(fs, d + e) {
        ConcatenationLocalShrink(fs, d, e, k);
      }
    }
  }

  lemma {:induction false} ConcatenationLocalGrow(fs: seq<Finder>, d: seq<byte>, e: seq<byte>, k: nat)
    requires |fs| > 0 && forall i :: 0 <= i < |fs| ==> Local(fs[i])
    requires k <= |d| && k in Concatenation(fs, d)
    ensures k in Concatenation(fs, d + e)
    decreases |fs|, 0
  {
    LocalTail(fs);
    var x := ConcatenationElim(fs, d, k);
    LocalAt(fs[0], d, e, x);
    assert (d + e)[x..] == d[x..] + e;
    ConcatenationLocal(fs[1..], d[x..], e, k - x);
    ConcatenationIntro(fs, d + e, x, k);
  }

  lemma {:induction false} ConcatenationLocalShrink(fs: seq<Finder>, d: seq<byte>, e: seq<byte>, k: nat)
    requires |fs| > 0 && forall i :: 0 <= i < |fs| ==> Local(fs[i])
    requires k <= |d| && k in Concatenation(fs, d + e)
    ensures k in Concatenation(fs, d)
    decreases |fs|, 0
  {
    LocalTail(fs);
    var x := ConcatenationElim(fs, d + e, k);
    LocalAt(fs[0], d, e, x);
    assert (d + e)[x..] == d[x..] + e;
    ConcatenationLocal(fs[1..], d[x..], e, k - x);
    ConcatenationIntro(fs, d, x, k);
  }

  lemma {:induction false} RepetitionLocal(f: Finder, d: seq<byte>, e: seq<byte>, k: nat)
    requires Local(f)
    requires k <= |d|
    ensures k in ZeroOrMore(f, d) <==> k in ZeroOrMore(f, d + e)
    ensures k in OneOrMore(f, d) <==> k in OneOrMore(f, d + e)
    decreases |d|
  {
    var de := d + e;
    if k in OneOrMore(f, d) {
      var x := OneOrMoreElim(f, d, k);
      assert x in f(d + e);
      assert de[x..] == d[x..] + e;
      RepetitionLocal(f, d[x..], e, k - x);
      OneOrMoreIntro(f, de, x, k);
    }
    if k in OneOrMore(f, de) {
      var x := OneOrMoreElim(f, de, k);
      assert x in f(d);
      assert de[x..] == d[x..] + e;
      RepetitionLocal(f, d[x..], e, k - x);
      OneOrMoreIntro(f, d, x, k);
    }
  }

  lemma {:induction false} ConcatenationAvoids(fs: seq<Finder>, c: byte, d: seq<byte>, k: nat)
    requires forall i :: 0 <= i < |fs| ==> Avoids(fs[i], c)
    requires k in Concatenation(fs, d)
    ensures c !in d[..k]
    decreases |fs|
  {
    if |fs| > 0 {
      var x := ConcatenationElim(fs, d, k);
      assert Avoids(fs[0], c);
      var rest := fs[1..];
      assert forall i :: 0 <= i < |rest| ==> Avoids(rest[i], c) by {
        forall i | 0 <= i < |rest| ensures Avoids(rest[i], c) { assert rest[i] == fs[i + 1]; }
      }
      ConcatenationAvoids(rest, c, d[x..], k - x);
      assert d[..k] == d[..x] + d[x..][..k - x];
    }
  }

  lemma {:induction false} RepetitionAvoids(f: Finder, c: byte, d: seq<byte>, k: nat)
    requires Avoids(f, c)
    requires k in ZeroOrMore(f, d)
    ensures c !in d[..k]
    decreases |d|
  {
    if k in OneOrMore(f, d) {
      var x := OneOrMoreElim(f, d, k);
      RepetitionAvoids(f, c, d[x..], k - x);
      assert d[..k] == d[..x] + d[x..][..k - x];
    }
  }

  // ---------------------------------------------------------------------
  // Runs of one byte class

  /** Length of the longest prefix of d whose bytes all satisfy p. */
  function Run(p: byte -> bool, d: seq<byte>): (n: nat)
    ensures n <= |d|
  {
    if |d| > 0 && p(d[0]) then 1 + Run(p, d[1..]) else 0
  }

  /** Every byte inside the run satisfies p, and the byte that ends it does not. */
  lemma {:induction false} RunStops(p: byte -> bool, d: seq<byte>)
    ensures forall i :: 0 <= i < Run(p, d) ==> p(d[i])
    ensures Run(p, d) < |d| ==> !p(d[Run(p, d)])
    decreases |d|
  {
    if |d| > 0 && p(d[0]) {
      var t := d[1..];
      RunStops(p, t);
      forall i | 0 <= i < Run(p, d) ensures p(d[i]) {
        if i > 0 {
          assert d[i] == t[i - 1];
        }
      }
      if Run(p, d) < |d| {
        assert d[Run(p, d)] == t[Run(p, t)];
      }
    }
  }

  /** The run reaches at least as far as any prefix whose bytes all satisfy p. */
  lemma {:induction false} RunCovers(p: byte -> bool, d: seq<byte>, m: nat)
    requires m <= |d|
    requires forall i :: 0 <= i < m ==> p(d[i])
    ensures m <= Run(p, d)
    decreases m
  {
    if m > 0 {
      var t := d[1..];
      assert forall i :: 0 <= i < m - 1 ==> p(t[i]) by {
        forall i | 0 <= i < m - 1 ensures p(t[i]) {
          assert t[i] == d[i + 1];
        }
      }
      RunCovers(p, t, m - 1);
    }
  }

  /** Repeating a one-byte class matches exactly the prefixes inside its run. */
  lemma {:induction false} RepetitionOfClass(f: Finder, p: byte -> bool, d: seq<byte>)
    requires forall e :: f(e) == ByteClass(p, e)
    ensures ZeroOrMore(f, d) == Upto(0, Run(p, d))
    ensures OneOrMore(f, d) == Upto(1, Run(p, d))
    decreases |d|
  {
    if |d| > 0 && p(d[0]) {
      var t := d[1..];
      assert f(d) == {1};
      RepetitionOfClass(f, p, t);
      OneOrMoreFixedHead(f, d, t);
      assert Run(p, d) == 1 + Run(p, t);
      ShiftedUpto(OneOrMore(f, d), ZeroOrMore(f, t), Run(p, t));
    } else {
      assert f(d) == {};
      OneOrMoreEmptyHead(f, d);
    }
    UptoFromOne(OneOrMore(f, d), Run(p, d));
  }

  /** One or more repetitions whose first step matches exactly one byte. */
  lemma OneOrMoreFixedHead(f: Finder, d: seq<byte>, t: seq<byte>)
    requires f(d) == {1} && |d| > 0 && t == d[1..]
    ensures forall k :: k in OneOrMore(f, d) <==> 1 <= k && k - 1 in ZeroOrMore(f, t)
  {
    OneOrMoreHeadElimAll(f, d, t);
    OneOrMoreHeadIntroAll(f, d, t);
  }

  lemma OneOrMoreHeadElimAll(f: Finder, d: seq<byte>, t: seq<byte>)
    requires f(d) == {1} && |d| > 0 && t == d[1..]
    ensures forall k :: k in OneOrMore(f, d) ==> 1 <= k && k - 1 in ZeroOrMore(f, t)
  {
    forall k | k in OneOrMore(f, d) ensures 1 <= k && k - 1 in ZeroOrMore(f, t)
    {
      OneOrMoreHeadElim(f, d, t, k);
    }
  }

  lemma OneOrMoreHeadIntroAll(f: Finder, d: seq<byte>, t: seq<byte>)
    requires f(d) == {1} && |d| > 0 && t == d[1..]
    ensures forall k :: 1 <= k && k - 1 in ZeroOrMore(f, t) ==> k in OneOrMore(f, d)
  {
    forall k | 1 <= k && k - 1 in ZeroOrMore(f, t) ensures k in OneOrMore(f, d)
    {
      OneOrMoreIntro(f, d, 1, k);
    }
  }

  /** A match of a repetition whose first step matches exactly one byte continues after that byte. */
  lemma OneOrMoreHeadElim(f: Finder, d: seq<byte>, t: seq<byte>, k: nat)
    requires f(d) == {1} && |d| > 0 && t == d[1..]
    requires k in OneOrMore(f, d)
    ensures 1 <= k && k - 1 in ZeroOrMore(f, t)
  {
    var x := OneOrMoreElim(f, d, k);
    assert x == 1;
  }

  /** A repetition whose first step does not match does not match. */
  lemma OneOrMoreEmptyHead(f: Finder, d: seq<byte>)
    requires f(d) == {}
    ensures OneOrMore(f, d) == {}
  {
    forall k | k in OneOrMore(f, d) ensures false
    {
      var _ := OneOrMoreElim(f, d, k);
    }
  }

  /** The members of a, one more than those of 0..hi, are 1..hi + 1. */
  lemma ShiftedUpto(a: set<nat>, b: set<nat>, hi: nat)
    requires forall k :: k in a <==> 1 <= k && k - 1 in b
    requires b == Upto(0, hi)
    ensures a == Upto(1, hi + 1)
  {
    forall k | k in Upto(1, hi + 1) ensures k in a {
      assert k - 1 in b;
    }
  }

  /** Adding 0 to 1..hi gives 0..hi. */
  lemma UptoFromOne(a: set<nat>, hi: nat)
    requires a == Upto(1, hi)
    ensures {0} + a == Upto(0, hi)
  {
  }

  /** n repetitions of a one-byte class match only at n, and only inside the run. */
  lemma {:induction false} SpecificRepetitionOfClass(n: nat, f: Finder, p: byte -> bool, d: seq<byte>)
    requires forall e :: f(e) == ByteClass(p, e)
    ensures SpecificRepetition(n, f, d) == if n <= Run(p, d) then {n} else {}
    decreases n
  {
    if n > 0 {
      if |d| > 0 && p(d[0]) {
        var t := d[1..];
        assert f(d) == {1};
        SpecificRepetitionOfClass(n - 1, f, p, t);
        SpecificRepetitionFixedHead(n, f, d, t);
        assert Run(p, d) == 1 + Run(p, t);
        ShiftedSingleton(SpecificRepetition(n, f, d), SpecificRepetition(n - 1, f, t), n, n <= Run(p, d));
      } else {
        assert f(d) == {};
        SpecificRepetitionEmptyHead(n, f, d);
      }
    }
  }

  /** A set whose members are one more than those of a set of at most n - 1 is, likewise, at most n. */
  lemma ShiftedSingleton(a: set<nat>, b: set<nat>, n: nat, c: bool)
    requires n > 0
    requires forall k :: k in a <==> 1 <= k && k - 1 in b
    requires b == if c then {n - 1} else {}
    ensures a == if c then {n} else {}
  {
    forall k | k in a ensures c && k == n {
      assert k - 1 in b;
    }
    if c {
      assert n - 1 in b;
    }
  }

  /** n > 0 repetitions whose first step does not match do not match. */
  lemma SpecificRepetitionEmptyHead(n: nat, f: Finder, d: seq<byte>)
    requires n > 0 && f(d) == {}
    ensures SpecificRepetition(n, f, d) == {}
  {
    forall k | k in SpecificRepetition(n, f, d) ensures false
    {
      var _ := SpecificRepetitionElim(n, f, d, k);
    }
  }

  /** n repetitions whose first step matches exactly one byte. */
  lemma SpecificRepetitionFixedHead(n: nat, f: Finder, d: seq<byte>, t: seq<byte>)
    requires n > 0 && f(d) == {1} && |d| > 0 && t == d[1..]
    ensures forall k :: k in SpecificRepetition(n, f, d) <==> 1 <= k && k - 1 in SpecificRepetition(n - 1, f, t)
  {
    forall k ensures k in SpecificRepetition(n, f, d) <==> 1 <= k && k - 1 in SpecificRepetition(n - 1, f, t)
    {
      if k in SpecificRepetition(n, f, d) {
        var _ := SpecificRepetitionElim(n, f, d, k);
      }
      if 1 <= k && k - 1 in SpecificRepetition(n - 1, f, t) {
        SpecificRepetitionIntro(n, f, d, 1, k);
      }
    }
  }

  /** A run that reaches x and meets a byte outside p there ends at x. */
  lemma RunEndsAt(p: byte -> bool, d: seq<byte>, x: nat)
    requires x <= Run(p, d) && x < |d| && !p(d[x])
    ensures Run(p, d) == x
  {
    RunStops(p, d);
  }

  /** A run over a prefix that satisfies p and stops at a byte that does not. */
  lemma {:induction false} RunOfPrefix(p: byte -> bool, a: seq<byte>, rest: seq<byte>)
    requires forall i :: 0 <= i < |a| ==> p(a[i])
    requires |rest| > 0 && !p(rest[0])
    ensures Run(p, a + rest) == |a|
  {
    var d := a + rest;
    assert forall i :: 0 <= i < |a| ==> p(d[i]) by {
      forall i | 0 <= i < |a| ensures p(d[i]) {
        assert d[i] == a[i];
      }
    }
    RunCovers(p, d, |a|);
    RunStops(p, d);
    assert d[|a|] == rest[0];
  }

  /** The rule matches empty wherever every element does. */
  lemma {:induction false} ConcatenationEmptyMatch(fs: seq<Finder>, d: seq<byte>)
    requires forall i, e :: 0 <= i < |fs| ==> 0 in fs[i](e)
    ensures 0 in Concatenation(fs, d)
    decreases |fs|
  {
    if |fs| > 0 {
      var rest := fs[1..];
      assert forall i, e :: 0 <= i < |rest| ==> 0 in rest[i](e) by {
        forall i, e | 0 <= i < |rest| ensures 0 in rest[i](e) { assert rest[i] == fs[i + 1]; }
      }
      ConcatenationEmptyMatch(rest, d);
      assert d[0..] == d;
      assert 0 in fs[0](d);
      ConcatenationIntro(fs, d, 0, 0);
    }
  }
}
