/** The block locator of fix-duplicate-methods: the pattern

      HEADER [\s\S]*? ^    }        (with re.MULTILINE)

    written out as a concrete scanner over the document's characters, and
    `re.finditer` over it as a left-to-right recursive scan. */
module Locator {

  datatype Option<T> = None | Some(value: T)

  /** A half-open range [start, end) of the document, as `match.span()` gives it. */
  datatype Span = Span(start: nat, end: nat)

  /** The literal text every block starts with. */
  const Header: string := "private async getPrioritizedPages(context: GenerationContext): Promise<SitemapPage[]> {"

  /** The text a block ends with; it must stand at the start of a line. */
  const Closer: string := "    }"

  /** The text `lit` occurs in s at offset p, that is, s[p..p + |lit|] == lit. */
  predicate LiteralAt(s: string, p: nat, lit: string) {
    p + |lit| <= |s| && forall k :: 0 <= k < |lit| ==> s[p + k] == lit[k]
  }

  /** The header occurs at offset p. */
  predicate HeaderAt(header: string, s: string, p: nat) {
    LiteralAt(s, p, header)
  }

  /** `^    }` matches at offset j: j is the start of a line (under re.MULTILINE,
      the start of the text or just after a newline) and the closer follows. */
  predicate CloserAt(s: string, j: nat) {
    LiteralAt(s, j, Closer) && (j == 0 || s[j - 1] == '\n')
  }

  /** The pattern matches at offset p with span sp: the header is at p, and the
      lazy `[\s\S]*?` stops at the EARLIEST line-start closer after the header;
      the closer's `}` is the last character of the match. */
  predicate IsMatch(header: string, s: string, p: nat, sp: Span) {
    && sp.start == p
    && HeaderAt(header, s, p)
    && p + |header| + |Closer| <= sp.end
    && CloserAt(s, sp.end - |Closer|)
    && forall j :: p + |header| <= j < sp.end - |Closer| ==> !CloserAt(s, j)
  }

  /** A match is non-empty and lies within the text. */
  lemma MatchBounds(header: string, s: string, p: nat, sp: Span)
    requires IsMatch(header, s, p, sp)
    ensures p < sp.end <= |s|
  {
  }

  /** Spans that lie in [lo, hi), in increasing order, pairwise non-overlapping. */
  predicate Ordered(spans: seq<Span>, lo: int, hi: int) {
    && (forall i :: 0 <= i < |spans| ==> lo <= spans[i].start <= spans[i].end <= hi)
    && (forall i, j :: 0 <= i < j < |spans| ==> spans[i].end <= spans[j].start)
  }

  /** The earliest offset at or after `from` where `^    }` matches. */
  function FindCloser(s: string, from: nat): (r: Option<nat>)
    ensures r.Some? ==> from <= r.value && CloserAt(s, r.value)
    ensures r.Some? ==> forall j :: from <= j < r.value ==> !CloserAt(s, j)
    ensures r.None? ==> forall j: nat :: from <= j ==> !CloserAt(s, j)
    decreases |s| - from
  {
    if from + |Closer| > |s| then None
    else if CloserAt(s, from) then Some(from)
    else FindCloser(s, from + 1)
  }

  /** The match attempt of the pattern anchored at offset p. */
  function MatchAt(header: string, s: string, p: nat): (r: Option<Span>)
    ensures forall sp :: IsMatch(header, s, p, sp) <==> r == Some(sp)
  {
    if HeaderAt(header, s, p) then
      match FindCloser(s, p + |header|)
      case Some(j) => Some(Span(p, j + |Closer|))
      case None => None
    else None
  }

  /** `list(compiled.finditer(s, pos))` for the pattern compiled with re.MULTILINE:
      try each position from pos on; after a match, resume at its end. The text
      before pos still decides whether `^` matches; the script scans from 0. */
  function FindAll(header: string, s: string, pos: nat): (ms: seq<Span>)
    ensures Ordered(ms, pos, |s|)
    ensures forall i :: 0 <= i < |ms| ==> IsMatch(header, s, ms[i].start, ms[i])
    decreases |s| - pos
  {
    if pos >= |s| then []
    else
      match MatchAt(header, s, pos)
      case Some(sp) => [sp] + FindAll(header, s, sp.end)
      case None => FindAll(header, s, pos + 1)
  }

  /** No match of the pattern starts in [a, b). */
  ghost predicate NoMatchBetween(header: string, s: string, a: nat, b: nat) {
    forall p: nat, sp: Span :: a <= p < b ==> !IsMatch(header, s, p, sp)
  }

  /** What finditer promises, stated without the position-by-position scan: ms
      is the chain of leftmost matches. Either no match starts at or after pos
      and ms is empty, or ms[0] is a match, none starts between pos and it, and
      the rest is the chain of leftmost matches from ms[0]'s end. */
  ghost predicate Leftmost(header: string, s: string, pos: nat, ms: seq<Span>)
    decreases ms
  {
    if ms == [] then NoMatchBetween(header, s, pos, |s|)
    else
      && pos <= ms[0].start
      && NoMatchBetween(header, s, pos, ms[0].start)
      && IsMatch(header, s, ms[0].start, ms[0])
      && Leftmost(header, s, ms[0].end, ms[1..])
  }

  lemma NoMatchExtend(header: string, s: string, pos: nat, b: nat)
    requires MatchAt(header, s, pos) == None && NoMatchBetween(header, s, pos + 1, b)
    ensures NoMatchBetween(header, s, pos, b)
  {
  }

  lemma {:induction false} FindAllIsLeftmost(header: string, s: string, pos: nat)
    ensures Leftmost(header, s, pos, FindAll(header, s, pos))
    decreases |s| - pos
  {
    if pos < |s| {
      match MatchAt(header, s, pos)
      case Some(sp) =>
        var rest := FindAll(header, s, sp.end);
        FindAllIsLeftmost(header, s, sp.end);
        assert IsMatch(header, s, pos, sp);
        assert FindAll(header, s, pos) == [sp] + rest;
        assert ([sp] + rest)[1..] == rest;
      case None =>
        var ms := FindAll(header, s, pos + 1);
        FindAllIsLeftmost(header, s, pos + 1);
        if ms == [] {
          NoMatchExtend(header, s, pos, |s|);
        } else {
          NoMatchExtend(header, s, pos, ms[0].start);
        }
    }
  }

  lemma {:induction false} LeftmostIsFindAll(header: string, s: string, pos: nat, ms: seq<Span>)
    requires Leftmost(header, s, pos, ms)
    ensures ms == FindAll(header, s, pos)
    decreases |s| - pos
  {
    if ms != [] {
      assert IsMatch(header, s, ms[0].start, ms[0]);
    }
    if pos < |s| {
      match MatchAt(header, s, pos)
      case Some(sp) =>
        assert IsMatch(header, s, pos, sp);
        assert ms != [] && ms[0] == sp;
        LeftmostIsFindAll(header, s, sp.end, ms[1..]);
        assert ms == [sp] + ms[1..];
      case None =>
        LeftmostIsFindAll(header, s, pos + 1, ms);
    }
  }

  /** The scan is exactly finditer's leftmost, non-overlapping match list. */
  lemma FindAllCharacterized(header: string, s: string, pos: nat, ms: seq<Span>)
    ensures Leftmost(header, s, pos, ms) <==> ms == FindAll(header, s, pos)
  {
    FindAllIsLeftmost(header, s, pos);
    if Leftmost(header, s, pos, ms) {
      LeftmostIsFindAll(header, s, pos, ms);
    }
  }

  /** A header with no line-start closer anywhere after it fails to match, and so
      does every later position: the scan from there on finds nothing. */
  lemma {:induction false} UnclosedHeaderEndsScan(header: string, s: string, p: nat, q: nat)
    requires HeaderAt(header, s, p)
    requires forall j: nat :: p + |header| <= j ==> !CloserAt(s, j)
    requires p <= q
    ensures MatchAt(header, s, p) == None
    ensures FindAll(header, s, q) == []
    decreases |s| - q
  {
    if q < |s| {
      UnclosedHeaderEndsScan(header, s, p, q + 1);
    }
  }

  /** When no match starts in [pos, a) and one starts at a, the scan from pos
      reports that one first. */
  lemma FirstMatchAfterGap(header: string, s: string, pos: nat, a: nat, sp: Span)
    requires pos <= a && NoMatchBetween(header, s, pos, a) && IsMatch(header, s, a, sp)
    ensures FindAll(header, s, pos) != [] && FindAll(header, s, pos)[0] == sp
  {
    var ms := FindAll(header, s, pos);
    FindAllIsLeftmost(header, s, pos);
    MatchBounds(header, s, a, sp);
    assert MatchAt(header, s, a) == Some(sp);
    assert ms != [];
    assert IsMatch(header, s, ms[0].start, ms[0]);
    assert ms[0].start == a;
  }

  /** s and t have the same first n characters. */
  predicate AgreeBelow(s: string, t: string, n: nat) {
    n <= |s| && n <= |t| && forall k :: 0 <= k < n ==> s[k] == t[k]
  }

  /** Whether the pattern matches with a span ending by n depends only on the first n characters. */
  lemma MatchDependsOnPrefix(header: string, s: string, t: string, n: nat, p: nat, sp: Span)
    requires AgreeBelow(s, t, n) && IsMatch(header, s, p, sp) && sp.end <= n
    ensures IsMatch(header, t, p, sp)
  {
    forall j: nat | j + |Closer| <= n ensures CloserAt(s, j) == CloserAt(t, j) {
    }
  }

  /** A header that starts before the first match would itself have matched:
      the first match's closer lies after it. So the header first occurs where
      the first match starts. */
  lemma NoHeaderBeforeFirst(header: string, s: string, p: nat)
    requires FindAll(header, s, 0) != [] && p < FindAll(header, s, 0)[0].start
    ensures !HeaderAt(header, s, p)
  {
    var first := FindAll(header, s, 0)[0];
    FindAllIsLeftmost(header, s, 0);
    assert MatchAt(header, s, p) == None;
    assert CloserAt(s, first.end - |Closer|);
  }
}
