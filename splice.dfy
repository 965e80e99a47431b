/** The keep-first splicer of fix-duplicate-methods: every located block but the
    first is cut out of the text, the last one first, by reassigning
    `content = content[:start] + content[end:]`. */
module Splice {
  import opened Locator

  /** The summed width of the spans. */
  function TotalLen(spans: seq<Span>): int {
    if spans == [] then 0 else spans[0].end - spans[0].start + TotalLen(spans[1..])
  }

  /** s from offset a on, with the spans cut out. */
  function Excise(s: string, spans: seq<Span>, a: nat): (r: string)
    requires a <= |s| && Ordered(spans, a, |s|)
    decreases spans
  {
    if spans == [] then s[a..]
    else s[a..spans[0].start] + Excise(s, spans[1..], spans[0].end)
  }

  /** The text the script writes back: the first match stays, every later one goes. */
  function KeepFirst(s: string, ms: seq<Span>): string
    requires Ordered(ms, 0, |s|)
  {
    if |ms| <= 1 then s else Excise(s, ms[1..], 0)
  }

  /** Some span covers offset k. */
  ghost predicate Covered(spans: seq<Span>, k: int) {
    exists i :: 0 <= i < |spans| && spans[i].start <= k < spans[i].end
  }

  /** The characters of s at offsets k and beyond that no span covers, in their original order. */
  ghost function Outside(s: string, spans: seq<Span>, k: nat): string
    decreases |s| - k
  {
    if k >= |s| then []
    else (if Covered(spans, k) then [] else [s[k]]) + Outside(s, spans, k + 1)
  }

  /** Cutting the spans out shortens the text by exactly their summed width. */
  lemma {:induction false} ExciseLength(s: string, spans: seq<Span>, a: nat)
    requires a <= |s| && Ordered(spans, a, |s|)
    ensures |Excise(s, spans, a)| == |s| - a - TotalLen(spans)
    decreases spans
  {
    if spans != [] {
      ExciseLength(s, spans[1..], spans[0].end);
    }
  }

  /** Text before the first span is copied as it stands. */
  lemma ExciseSplit(s: string, spans: seq<Span>, a: nat, b: nat)
    requires a <= b <= |s| && Ordered(spans, b, |s|)
    ensures Excise(s, spans, a) == s[a..b] + Excise(s, spans, b)
  {
    if spans == [] {
      assert s[a..] == s[a..b] + s[b..];
    } else {
      var st := spans[0].start;
      var tail := Excise(s, spans[1..], spans[0].end);
      assert Excise(s, spans, a) == s[a..st] + tail;
      assert Excise(s, spans, b) == s[b..st] + tail;
      forall k | 0 <= k < |Excise(s, spans, a)|
        ensures Excise(s, spans, a)[k] == (s[a..b] + Excise(s, spans, b))[k]
      {
      }
    }
  }

  lemma {:induction false} OutsideUncovered(s: string, spans: seq<Span>, a: nat, b: nat)
    requires a <= b <= |s|
    requires forall k :: a <= k < b ==> !Covered(spans, k)
    ensures Outside(s, spans, a) == s[a..b] + Outside(s, spans, b)
    decreases b - a
  {
    if a < b {
      OutsideUncovered(s, spans, a + 1, b);
      var rest := Outside(s, spans, b);
      assert Outside(s, spans, a) == [s[a]] + (s[a + 1..b] + rest);
      assert s[a..b] == [s[a]] + s[a + 1..b];
      assert [s[a]] + (s[a + 1..b] + rest) == ([s[a]] + s[a + 1..b]) + rest;
    }
  }

  lemma {:induction false} OutsideCovered(s: string, spans: seq<Span>, a: nat, b: nat)
    requires a <= b <= |s|
    requires forall k :: a <= k < b ==> Covered(spans, k)
    ensures Outside(s, spans, a) == Outside(s, spans, b)
    decreases b - a
  {
    if a < b {
      OutsideCovered(s, spans, a + 1, b);
    }
  }

  lemma {:induction false} OutsideSameCover(s: string, spans: seq<Span>, others: seq<Span>, a: nat)
    requires forall k :: a <= k ==> (Covered(spans, k) <==> Covered(others, k))
    ensures Outside(s, spans, a) == Outside(s, others, a)
    decreases |s| - a
  {
    if a < |s| {
      OutsideSameCover(s, spans, others, a + 1);
    }
  }

  /** Before the first of ordered spans, nothing is covered. */
  lemma CoverBefore(spans: seq<Span>, lo: int, hi: int, k: int)
    requires Ordered(spans, lo, hi) && spans != [] && k < spans[0].start
    ensures !Covered(spans, k)
  {
  }

  /** From the end of the first of ordered spans on, coverage is that of the others. */
  lemma CoverAfter(spans: seq<Span>, lo: int, hi: int, k: int)
    requires Ordered(spans, lo, hi) && spans != [] && spans[0].end <= k
    ensures Covered(spans, k) <==> Covered(spans[1..], k)
  {
    if Covered(spans, k) {
      var i :| 0 <= i < |spans| && spans[i].start <= k < spans[i].end;
      assert spans[1..][i - 1] == spans[i];
    }
    if Covered(spans[1..], k) {
      var i :| 0 <= i < |spans[1..]| && spans[1..][i].start <= k < spans[1..][i].end;
      assert spans[i + 1] == spans[1..][i];
    }
  }

  /** Cutting the spans out leaves exactly the uncovered characters, in order. */
  lemma {:induction false} ExciseIsOutside(s: string, spans: seq<Span>, a: nat)
    requires a <= |s| && Ordered(spans, a, |s|)
    ensures Excise(s, spans, a) == Outside(s, spans, a)
    decreases spans
  {
    if spans == [] {
      OutsideUncovered(s, spans, a, |s|);
    } else {
      var first, rest := spans[0], spans[1..];
      ExciseIsOutside(s, rest, first.end);
      forall k | a <= k < first.start ensures !Covered(spans, k) {
        CoverBefore(spans, a, |s|, k);
      }
      OutsideUncovered(s, spans, a, first.start);
      forall k | first.start <= k < first.end ensures Covered(spans, k) {
        assert spans[0].start <= k < spans[0].end;
      }
      OutsideCovered(s, spans, first.start, first.end);
      forall k | first.end <= k ensures Covered(spans, k) <==> Covered(rest, k) {
        CoverAfter(spans, a, |s|, k);
      }
      OutsideSameCover(s, spans, rest, first.end);
    }
  }

  /** The first block and everything before it stay at their original offsets. */
  lemma KeepFirstKeepsFirst(s: string, ms: seq<Span>)
    requires Ordered(ms, 0, |s|) && |ms| >= 1
    ensures ms[0].end <= |KeepFirst(s, ms)|
    ensures KeepFirst(s, ms)[..ms[0].end] == s[..ms[0].end]
    ensures KeepFirst(s, ms)[ms[0].start..ms[0].end] == s[ms[0].start..ms[0].end]
  {
    if |ms| > 1 {
      ExciseSplit(s, ms[1..], 0, ms[0].end);
    }
  }

  /** The result is the original minus the excised spans: its length drops by
      exactly their widths, and what is left is every character outside them, in order. */
  lemma KeepFirstRemovesLater(s: string, ms: seq<Span>)
    requires Ordered(ms, 0, |s|) && |ms| >= 2
    ensures |KeepFirst(s, ms)| == |s| - TotalLen(ms[1..])
    ensures KeepFirst(s, ms) == Outside(s, ms[1..], 0)
  {
    ExciseLength(s, ms[1..], 0);
    ExciseIsOutside(s, ms[1..], 0);
  }

  /** One iteration of the loop: cutting span i out of the text that already
      lacks spans i+1.. gives the text that lacks spans i.. . */
  lemma CutStep(s: string, ms: seq<Span>, i: nat)
    requires Ordered(ms, 0, |s|) && i < |ms|
    ensures ms[i].end <= |Excise(s, ms[i + 1..], 0)|
    ensures var c := Excise(s, ms[i + 1..], 0);
      c[..ms[i].start] + c[ms[i].end..] == Excise(s, ms[i..], 0)
  {
    var sp := ms[i];
    ExciseSplit(s, ms[i + 1..], 0, sp.end);
    assert ms[i..][1..] == ms[i + 1..];
    var c := Excise(s, ms[i + 1..], 0);
    assert c[..sp.start] == s[..sp.start];
    assert c[sp.end..] == Excise(s, ms[i + 1..], sp.end);
  }

  /** Offsets below the first remaining span still index the original text. */
  lemma PrefixKept(s: string, ms: seq<Span>, i: nat)
    requires Ordered(ms, 0, |s|) && 0 < i <= |ms|
    ensures forall j :: 0 <= j < i ==>
      ms[j].end <= |Excise(s, ms[i..], 0)| && Excise(s, ms[i..], 0)[ms[j].start..ms[j].end] == s[ms[j].start..ms[j].end]
  {
    var n := ms[i - 1].end;
    ExciseSplit(s, ms[i..], 0, n);
    var c := Excise(s, ms[i..], 0);
    forall k | 0 <= k < n ensures c[k] == s[k] {
      assert c[k] == (s[0..n] + Excise(s, ms[i..], n))[k];
    }
    forall j | 0 <= j < i
      ensures ms[j].end <= |c| && c[ms[j].start..ms[j].end] == s[ms[j].start..ms[j].end]
    {
      assert ms[j].end <= n;
    }
  }

  /** `for match in reversed(matches[1:]): content = content[:start] + content[end:]`. */
  method RemoveLater(s: string, ms: seq<Span>) returns (content: string)
    requires Ordered(ms, 0, |s|)
    ensures content == KeepFirst(s, ms)
  {
    content := s;
    var i := |ms|;
    while i > 1
      invariant 0 <= i <= |ms| && (|ms| > 0 ==> 1 <= i)
      invariant content == Excise(s, ms[i..], 0)
      // the spans still to be cut sit where they sat in the original
      invariant forall j :: 0 <= j < i ==>
        ms[j].end <= |content| && content[ms[j].start..ms[j].end] == s[ms[j].start..ms[j].end]
    {
      i := i - 1;
      CutStep(s, ms, i);
      content := content[..ms[i].start] + content[ms[i].end..];
      PrefixKept(s, ms, i);
    }
  }
}
