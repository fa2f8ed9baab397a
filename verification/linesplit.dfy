/**
 How a byte buffer is cut into lines by the forward walker of src/file.rs:
 it splits at LF, never delivers the LF, drops one CR that stands right
 before a line end, and treats a final stretch of bytes without an LF after
 it as a line of its own. A trailing LF closes the last line and does not open an empty one.

 A line is described by its span, a pair of indices into the buffer, so
 that the structural facts below are facts about index arithmetic; the
 bytes of a line are the view of its span.
 */
module LineSplit {
  import opened Delivery

  type Bytes = seq<bv8>

  const LF: bv8 := 0x0A
  const CR: bv8 := 0x0D

  /** The index of the first LF in `buf[pos..hi]`, or `hi` when there is none. */
  function NextLF(buf: Bytes, pos: nat, hi: nat): (e: nat)
    requires pos <= hi <= |buf|
    ensures pos <= e <= hi
    decreases hi - pos
  {
    if pos == hi || buf[pos] == LF then pos else NextLF(buf, pos + 1, hi)
  }

  /** `NextLF` skips only non-LF bytes and stops on an LF. */
  lemma {:induction false} NextLFSpec(buf: Bytes, pos: nat, hi: nat)
    requires pos <= hi <= |buf|
    ensures forall k :: pos <= k < NextLF(buf, pos, hi) ==> buf[k] != LF
    ensures NextLF(buf, pos, hi) < hi ==> buf[NextLF(buf, pos, hi)] == LF
    decreases hi - pos
  {
    if pos < hi && buf[pos] != LF {
      NextLFSpec(buf, pos + 1, hi);
    }
  }

  /** The only index with the properties of `NextLF` is `NextLF` itself. */
  lemma {:induction false} NextLFIs(buf: Bytes, pos: nat, hi: nat, e: nat)
    requires pos <= e <= hi <= |buf|
    requires forall k :: pos <= k < e ==> buf[k] != LF
    requires e < hi ==> buf[e] == LF
    ensures NextLF(buf, pos, hi) == e
    decreases e - pos
  {
    if pos < e {
      NextLFIs(buf, pos + 1, hi, e);
    }
  }

  /** An LF at `cut - 1` ends every search that starts before it, whatever
      the upper bound of the search. */
  lemma {:induction false} NextLFBeforeCut(buf: Bytes, pos: nat, cut: nat, hi: nat)
    requires pos < cut <= hi <= |buf| && buf[cut - 1] == LF
    ensures NextLF(buf, pos, hi) == NextLF(buf, pos, cut) < cut
    decreases cut - pos
  {
    if buf[pos] != LF {
      NextLFBeforeCut(buf, pos + 1, cut, hi);
    }
  }

  /** The stretch `buf[lo..hi]` of a buffer. */
  datatype Span = Span(lo: nat, hi: nat)

  /** The end of the content of a line that starts at `lo` and whose
      delimiter (or the end of the buffer) is at `e`: one CR right before
      `e` is not part of the content. */
  function ContentEnd(buf: Bytes, lo: nat, e: nat): (c: nat)
    requires lo <= e <= |buf|
    ensures lo <= c <= e && e - c <= 1
  {
    if lo < e && buf[e - 1] == CR then e - 1 else e
  }

  /** The spans of the lines of the region `buf[pos..hi]`, front to back. */
  function SpansIn(buf: Bytes, pos: nat, hi: nat): List<Span>
    requires hi <= |buf|
    decreases hi - pos
  {
    if pos >= hi then Nil
    else
      var e := NextLF(buf, pos, hi);
      Cons(Span(pos, ContentEnd(buf, pos, e)), SpansIn(buf, e + 1, hi))
  }

  /** The bytes a span covers; a span that does not fit the buffer covers none. */
  function View(buf: Bytes, s: Span): Bytes
  {
    if s.lo <= s.hi <= |buf| then buf[s.lo..s.hi] else []
  }

  function Views(buf: Bytes, spans: List<Span>): List<Bytes>
  {
    match spans
    case Nil => Nil
    case Cons(s, rest) => Cons(View(buf, s), Views(buf, rest))
  }

  /** The lines of `buf`, in buffer order. */
  function Lines(buf: Bytes): List<Bytes>
  {
    Views(buf, SpansIn(buf, 0, |buf|))
  }

  /** The segment with one trailing CR removed, if it has one. */
  function StripCR(seg: Bytes): (r: Bytes)
    ensures |seg| > 0 && seg[|seg| - 1] == CR ==> r + [CR] == seg
    ensures !(|seg| > 0 && seg[|seg| - 1] == CR) ==> r == seg
  {
    if |seg| > 0 && seg[|seg| - 1] == CR then seg[..|seg| - 1] else seg
  }

  lemma {:induction false} ViewsAppend(buf: Bytes, xs: List<Span>, ys: List<Span>)
    ensures Views(buf, Append(xs, ys)) == Append(Views(buf, xs), Views(buf, ys))
  {
    match xs
    case Nil =>
    case Cons(_, rest) => ViewsAppend(buf, rest, ys);
  }

  lemma {:induction false} ViewsLength(buf: Bytes, spans: List<Span>)
    ensures Length(Views(buf, spans)) == Length(spans)
  {
    match spans
    case Nil =>
    case Cons(_, rest) => ViewsLength(buf, rest);
  }

  /** Viewing and reversing commute. */
  lemma {:induction false} ViewsReversed(buf: Bytes, spans: List<Span>)
    ensures Views(buf, Reversed(spans)) == Reversed(Views(buf, spans))
  {
    match spans
    case Nil =>
    case Cons(s, rest) =>
      ViewsReversed(buf, rest);
      ViewsAppend(buf, Reversed(rest), Cons(s, Nil));
  }

  /** Each line of a non-empty region runs from its start up to the next LF
      or the end of the region, with one CR before that point removed, and
      the lines after it start right behind that LF. */
  lemma LineIsSegment(buf: Bytes, pos: nat, hi: nat)
    requires pos < hi <= |buf|
    ensures Views(buf, SpansIn(buf, pos, hi))
         == Cons(StripCR(buf[pos..NextLF(buf, pos, hi)]), Views(buf, SpansIn(buf, NextLF(buf, pos, hi) + 1, hi)))
  {
    var e := NextLF(buf, pos, hi);
    assert buf[pos..ContentEnd(buf, pos, e)] == StripCR(buf[pos..e]);
  }

  /** The line at `pos` contains no LF. */
  lemma LineHasNoLF(buf: Bytes, pos: nat, hi: nat)
    requires pos <= hi <= |buf|
    ensures LF !in View(buf, Span(pos, ContentEnd(buf, pos, NextLF(buf, pos, hi))))
  {
    NextLFSpec(buf, pos, hi);
  }

  lemma {:induction false} LinesInHaveNoLF(buf: Bytes, pos: nat, hi: nat)
    requires hi <= |buf|
    ensures forall line :: line in Elems(Views(buf, SpansIn(buf, pos, hi))) ==> LF !in line
    decreases hi - pos
  {
    if pos < hi {
      LineHasNoLF(buf, pos, hi);
      LinesInHaveNoLF(buf, NextLF(buf, pos, hi) + 1, hi);
    }
  }

  /** No line contains an LF. */
  lemma LinesHaveNoLF(buf: Bytes)
    ensures forall line :: line in Elems(Lines(buf)) ==> LF !in line
  {
    LinesInHaveNoLF(buf, 0, |buf|);
  }

  /** The number of LF bytes in `buf[pos..]`. */
  function CountLFFrom(buf: Bytes, pos: nat): nat
    requires pos <= |buf|
    decreases |buf| - pos
  {
    if pos == |buf| then 0 else (if buf[pos] == LF then 1 else 0) + CountLFFrom(buf, pos + 1)
  }

  function CountLF(buf: Bytes): nat
  {
    CountLFFrom(buf, 0)
  }

  /** Skipping bytes that are not LF does not change the count. */
  lemma {:induction false} CountLFSkip(buf: Bytes, pos: nat, e: nat)
    requires pos <= e <= |buf|
    requires forall k :: pos <= k < e ==> buf[k] != LF
    ensures CountLFFrom(buf, pos) == CountLFFrom(buf, e)
    decreases e - pos
  {
    if pos < e {
      CountLFSkip(buf, pos + 1, e);
    }
  }

  lemma {:induction false} LineCountFrom(buf: Bytes, pos: nat)
    requires pos <= |buf|
    ensures Length(SpansIn(buf, pos, |buf|))
         == CountLFFrom(buf, pos) + (if pos < |buf| && buf[|buf| - 1] != LF then 1 else 0)
    decreases |buf| - pos
  {
    if pos < |buf| {
      var e := NextLF(buf, pos, |buf|);
      NextLFSpec(buf, pos, |buf|);
      CountLFSkip(buf, pos, e);
      if e < |buf| {
        LineCountFrom(buf, e + 1);
      }
    }
  }

  /** There is one line per LF, and one more for a final stretch that no LF
      ends: a trailing LF adds no empty line. */
  lemma LineCount(buf: Bytes)
    ensures Length(Lines(buf)) == CountLF(buf) + (if |buf| > 0 && buf[|buf| - 1] != LF then 1 else 0)
  {
    LineCountFrom(buf, 0);
    ViewsLength(buf, SpansIn(buf, 0, |buf|));
  }

  /** An LF at `cut - 1` splits the lines of a region into the lines before
      it and the lines after it. */
  lemma {:induction false} SpansCut(buf: Bytes, pos: nat, cut: nat, hi: nat)
    requires pos <= cut <= hi <= |buf| && 0 < cut && buf[cut - 1] == LF
    ensures SpansIn(buf, pos, hi) == Append(SpansIn(buf, pos, cut), SpansIn(buf, cut, hi))
    decreases cut - pos
  {
    if pos < cut {
      NextLFBeforeCut(buf, pos, cut, hi);
      SpansCut(buf, NextLF(buf, pos, cut) + 1, cut, hi);
    }
  }

  /** The last line of the region `buf[..hi]` starts at `pos`, right after an
      LF or at the start of the buffer, and ends at `e`, at the region's end
      or at an LF that is the region's last byte. */
  lemma LastLine(buf: Bytes, pos: nat, e: nat, hi: nat)
    requires pos <= e <= hi <= |buf| && pos < hi && hi <= e + 1
    requires e < hi ==> buf[e] == LF
    requires pos == 0 || buf[pos - 1] == LF
    requires forall k :: pos <= k < e ==> buf[k] != LF
    ensures SpansIn(buf, 0, hi) == Snoc(SpansIn(buf, 0, pos), Span(pos, ContentEnd(buf, pos, e)))
  {
    NextLFIs(buf, pos, hi, e);
    if pos > 0 {
      SpansCut(buf, 0, pos, hi);
    }
  }

  /** The inverse of splitting: every line followed by an LF. */
  function JoinLines(ls: List<Bytes>): Bytes
  {
    match ls
    case Nil => []
    case Cons(line, rest) => line + [LF] + JoinLines(rest)
  }

  /** In a buffer that ends in LF, the bytes from a line start on are that
      line, its LF, and everything after the LF. */
  lemma SplitAtLine(buf: Bytes, pos: nat, e: nat)
    requires pos < |buf| && buf[|buf| - 1] == LF
    requires e == NextLF(buf, pos, |buf|)
    ensures e < |buf|
    ensures buf[pos..] == buf[pos..e] + [LF] + buf[e + 1..]
  {
    NextLFBeforeCut(buf, pos, |buf|, |buf|);
    NextLFSpec(buf, pos, |buf|);
  }

  lemma {:induction false} JoinLinesFrom(buf: Bytes, pos: nat)
    requires pos <= |buf| && 0 < |buf| && buf[|buf| - 1] == LF
    requires forall k :: 0 <= k < |buf| ==> buf[k] != CR
    ensures JoinLines(Views(buf, SpansIn(buf, pos, |buf|))) == buf[pos..]
    decreases |buf| - pos
  {
    if pos < |buf| {
      var e := NextLF(buf, pos, |buf|);
      FirstSpanWithoutCR(buf, pos, |buf|);
      NextLFBeforeCut(buf, pos, |buf|, |buf|);
      JoinLinesFrom(buf, e + 1);
      JoinLinesStep(buf, pos, e, SpansIn(buf, pos, |buf|), SpansIn(buf, e + 1, |buf|));
    }
  }

  /** Without CR, a line's content runs right up to its delimiter. */
  lemma FirstSpanWithoutCR(buf: Bytes, pos: nat, hi: nat)
    requires pos < hi <= |buf|
    requires forall k :: 0 <= k < |buf| ==> buf[k] != CR
    ensures SpansIn(buf, pos, hi) == Cons(Span(pos, NextLF(buf, pos, hi)), SpansIn(buf, NextLF(buf, pos, hi) + 1, hi))
  {
  }

  lemma JoinLinesStep(buf: Bytes, pos: nat, e: nat, spans: List<Span>, rest: List<Span>)
    requires pos < |buf| && buf[|buf| - 1] == LF
    requires e == NextLF(buf, pos, |buf|) && e < |buf|
    requires spans == Cons(Span(pos, e), rest)
    requires JoinLines(Views(buf, rest)) == buf[e + 1..]
    ensures JoinLines(Views(buf, spans)) == buf[pos..]
  {
    SplitAtLine(buf, pos, e);
  }

  /** Joining the lines of a buffer without CR that ends in LF gives the
      buffer back. */
  lemma JoinLinesOfLines(buf: Bytes)
    requires 0 < |buf| && buf[|buf| - 1] == LF
    requires forall k :: 0 <= k < |buf| ==> buf[k] != CR
    ensures JoinLines(Lines(buf)) == buf
  {
    JoinLinesFrom(buf, 0);
    assert buf[0..] == buf;
  }
}
