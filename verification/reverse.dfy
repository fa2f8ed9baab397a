/**
 The reverse walker `buffer_for_each_line_reverse` of src/file.rs, as
 written. It keeps a cursor `end` on the last byte not yet walked, excludes
 a delimiter ("\n", or "\r\n" when `end > 1`) found there, scans back to the
 byte after the previous LF, and delivers the bytes from there up to and
 including `end`.

 This walker agrees with the forward one only on some buffers: on a Plain
 buffer it delivers the lines in reverse order, and the lemmas at the end
 show buffers where it does not.
 */
module ReverseWalker {
  import opened Delivery
  import opened LineSplit

  /** The index of the last byte of the line whose delimiter may sit at
      `end`: a "\n" at `end` is excluded, and so is a "\r" before it,
      though only when `end > 1`. */
  function DropDelimiter(buf: Bytes, end: nat): (c: nat)
    requires 0 < end < |buf|
    ensures c <= end
  {
    if end > 1 && buf[end] == LF && buf[end - 1] == CR then end - 2
    else if buf[end] == LF then end - 1
    else end
  }

  /** Where the backward scan from `e` stops: right after the nearest LF
      before index `e`, or at 0. */
  function LineStart(buf: Bytes, e: nat): (pos: nat)
    requires e <= |buf|
    ensures pos <= e
    ensures pos == 0 || buf[pos - 1] == LF
    decreases e
  {
    if e == 0 || buf[e - 1] == LF then e else LineStart(buf, e - 1)
  }

  /** The scan skips no LF. */
  lemma {:induction false} LineStartSkipsNoLF(buf: Bytes, e: nat)
    requires e <= |buf|
    ensures forall k :: LineStart(buf, e) <= k < e ==> buf[k] != LF
    decreases e
  {
    if e > 0 && buf[e - 1] != LF {
      LineStartSkipsNoLF(buf, e - 1);
    }
  }

  /** The spans the walk delivers once its cursor is at `end`, in delivery
      order. The walk goes on only while `end > 0`. */
  function SpansFrom(buf: Bytes, end: nat): List<Span>
    requires end == 0 || end < |buf|
    decreases end
  {
    if end == 0 then Nil
    else
      var c := DropDelimiter(buf, end);
      var pos := LineStart(buf, c);
      Cons(Span(pos, c + 1), SpansFrom(buf, if pos > 0 then pos - 1 else 0))
  }

  /** Every span the walk delivers, from the cursor's first position on. */
  function RevSpans(buf: Bytes): List<Span>
  {
    SpansFrom(buf, if |buf| > 0 then |buf| - 1 else 0)
  }

  /** Every line the walk delivers to a callback that never stops. */
  function RevLines(buf: Bytes): List<Bytes>
  {
    Views(buf, RevSpans(buf))
  }

  /** Each span is non-empty and ends at or before `bound`, and each later
      span ends before the byte in front of the previous span's start: the
      walk moves strictly backwards and lines do not overlap. */
  predicate WalksBack(spans: List<Span>, bound: int)
  {
    match spans
    case Nil => true
    case Cons(s, rest) => s.lo < s.hi <= bound && WalksBack(rest, s.lo - 1)
  }

  /** The walk from cursor `end` stays inside `buf[..end + 1]`, and inside
      `buf[..end]` when the cursor is on an LF. */
  lemma {:induction false} SpansFromSafe(buf: Bytes, end: nat)
    requires end == 0 || end < |buf|
    ensures WalksBack(SpansFrom(buf, end), end + 1)
    ensures end < |buf| && buf[end] == LF ==> WalksBack(SpansFrom(buf, end), end)
    decreases end
  {
    if end > 0 {
      var c := DropDelimiter(buf, end);
      var pos := LineStart(buf, c);
      SpansFromSafe(buf, if pos > 0 then pos - 1 else 0);
    }
  }

  /** Every line the walk delivers is a non-empty part of the buffer, and
      the lines come in strictly decreasing buffer order. */
  lemma RevSpansSafe(buf: Bytes)
    ensures WalksBack(RevSpans(buf), |buf|)
  {
    SpansFromSafe(buf, if |buf| > 0 then |buf| - 1 else 0);
  }

  /** The backward scan of the source loop: from `e` back to the byte after
      the nearest LF before it, or to 0. */
  method ScanBack(buf: Bytes, e: nat) returns (pos: nat)
    requires e <= |buf|
    ensures pos == LineStart(buf, e)
  {
    pos := e;
    while pos > 0 && buf[pos - 1] != LF
      invariant pos <= e
      invariant LineStart(buf, pos) == LineStart(buf, e)
    {
      pos := pos - 1;
    }
  }

  /** One turn of the source loop with the cursor at `end`: exclude a
      delimiter at `end`, scan back to the start of the line, cut the line
      out, and move the cursor in front of it. */
  method WalkStep(buf: Bytes, end: nat) returns (line: Bytes, next: nat)
    requires 0 < end < |buf|
    ensures next < end
    ensures Views(buf, SpansFrom(buf, end)) == Cons(line, Views(buf, SpansFrom(buf, next)))
  {
    var e := end;
    if e > 1 && buf[e] == LF && buf[e - 1] == CR {
      e := e - 2;
    } else if buf[e] == LF {
      e := e - 1;
    }
    assert e == DropDelimiter(buf, end);
    var pos := ScanBack(buf, e);
    var len := e - pos + 1;
    line := buf[pos..pos + len];
    if pos > 0 {
      next := pos - 1;
    } else {
      next := 0;
    }
    FirstSpanFrom(buf, end, e, pos, len, next);
  }

  /** The line the turn cuts out is the first line of the walk from `end`. */
  lemma FirstSpanFrom(buf: Bytes, end: nat, c: nat, pos: nat, len: nat, next: nat)
    requires 0 < end < |buf| && c == DropDelimiter(buf, end) && pos == LineStart(buf, c)
    requires len == c - pos + 1 && next == if pos > 0 then pos - 1 else 0
    ensures Views(buf, SpansFrom(buf, end)) == Cons(buf[pos..pos + len], Views(buf, SpansFrom(buf, next)))
  {
  }

  /** Hands lines to the callback from the back of `buf` to the front, as
      the source loop does, and stops after the first line on which the
      callback answers true. */
  method ForEachLineReverse(buf: Bytes, stop: Bytes -> bool) returns (delivered: List<Bytes>)
    ensures delivered == TakeThrough(RevLines(buf), stop)
    ensures |buf| <= 1 ==> delivered == Nil
    ensures Plain(buf) ==> delivered == TakeThrough(Reversed(Lines(buf)), stop)
  {
    ghost var all := TakeThrough(RevLines(buf), stop);
    var end: nat := |buf|;
    if end > 0 {
      end := end - 1;
    }
    delivered := Nil;
    while end > 0
      invariant end == 0 || end < |buf|
      invariant all == Append(delivered, TakeThrough(Views(buf, SpansFrom(buf, end)), stop))
      decreases end
    {
      var line, next := WalkStep(buf, end);
      DeliverStep(all, delivered, line, Views(buf, SpansFrom(buf, next)), stop);
      end := next;
      delivered := Snoc(delivered, line);
      if stop(line) {
        break;
      }
    }
    AppendNil(delivered);
    if Plain(buf) {
      ReverseMatchesForward(buf);
    }
  }

  /** A buffer on which the walk is faithful: it is not empty, ends in LF,
      has no CR, and has no empty line (no leading LF and no two LFs in a
      row). */
  predicate Plain(buf: Bytes)
  {
    && 0 < |buf| && buf[|buf| - 1] == LF && buf[0] != LF
    && (forall k :: 0 <= k < |buf| ==> buf[k] != CR)
    && (forall k :: 0 < k < |buf| && buf[k] == LF ==> buf[k - 1] != LF)
  }

  /** On a Plain buffer, the walk from an LF at `end` delivers the lines of
      `buf[..end + 1]` back to front. */
  lemma {:induction false} SpansFromPlain(buf: Bytes, end: nat)
    requires Plain(buf) && 0 < end < |buf| && buf[end] == LF
    ensures SpansFrom(buf, end) == Reversed(SpansIn(buf, 0, end + 1))
    decreases end
  {
    var pos := LineStart(buf, end - 1);
    PlainLastLine(buf, end);
    if pos > 0 {
      SpansFromPlain(buf, pos - 1);
    }
    PlainStep(buf, end, pos, SpansIn(buf, 0, pos));
  }

  /** In a Plain buffer the line that ends at the LF at `end` starts where
      the backward scan stops, and the LF before it, if any, is not the
      buffer's first byte. */
  lemma PlainLastLine(buf: Bytes, end: nat)
    requires Plain(buf) && 0 < end < |buf| && buf[end] == LF
    ensures var pos := LineStart(buf, end - 1);
      && SpansIn(buf, 0, end + 1) == Snoc(SpansIn(buf, 0, pos), Span(pos, end))
      && (pos > 0 ==> 1 < pos && buf[pos - 1] == LF)
  {
    var pos := LineStart(buf, end - 1);
    LineStartSkipsNoLF(buf, end - 1);
    assert forall k :: pos <= k < end ==> buf[k] != LF;
    LastLine(buf, pos, end, end + 1);
  }

  lemma PlainStep(buf: Bytes, end: nat, pos: nat, before: List<Span>)
    requires 0 < end < |buf| && buf[end] == LF && buf[end - 1] != CR
    requires pos == LineStart(buf, end - 1)
    requires before == SpansIn(buf, 0, pos)
    requires SpansIn(buf, 0, end + 1) == Snoc(before, Span(pos, end))
    requires SpansFrom(buf, if pos > 0 then pos - 1 else 0) == Reversed(before)
    ensures SpansFrom(buf, end) == Reversed(SpansIn(buf, 0, end + 1))
  {
    ReversedSnoc(before, Span(pos, end));
  }

  /** On a Plain buffer the reverse walk delivers exactly the lines of the
      forward walk, in reverse order. */
  lemma ReverseMatchesForward(buf: Bytes)
    requires Plain(buf)
    ensures RevLines(buf) == Reversed(Lines(buf))
  {
    SpansFromPlain(buf, |buf| - 1);
    ViewsReversed(buf, SpansIn(buf, 0, |buf|));
  }

  /** "x": the cursor starts at 0, so the loop never runs and a one-byte
      buffer delivers nothing, where the forward walk delivers "x". */
  lemma SingleByteDropped()
    ensures RevLines([0x78]) == Nil
    ensures Lines([0x78]) == Cons([0x78], Nil)
    ensures RevLines([0x78]) != Reversed(Lines([0x78]))
  {
    var buf: Bytes := [0x78];
    assert NextLF(buf, 0, 1) == 1 && ContentEnd(buf, 0, 1) == 1;
    assert SpansIn(buf, 0, 1) == Cons(Span(0, 1), Nil);
    assert buf[0..1] == [0x78];
  }

  /** "\nx": after "x" the cursor reaches 0 and the loop ends, so the empty
      first line is never delivered. */
  lemma LeadingEmptyLineDropped()
    ensures RevLines([LF, 0x78]) == Cons([0x78], Nil)
    ensures Lines([LF, 0x78]) == Cons([], Cons([0x78], Nil))
  {
    var buf: Bytes := [LF, 0x78];
    assert DropDelimiter(buf, 1) == 1 && LineStart(buf, 1) == 1;
    assert SpansFrom(buf, 1) == Cons(Span(1, 2), Nil);
    assert buf[1..2] == [0x78];
    assert NextLF(buf, 0, 2) == 0 && ContentEnd(buf, 0, 0) == 0;
    assert NextLF(buf, 1, 2) == 2 && ContentEnd(buf, 1, 2) == 2;
    assert SpansIn(buf, 1, 2) == Cons(Span(1, 2), Nil);
    assert SpansIn(buf, 0, 2) == Cons(Span(0, 0), Cons(Span(1, 2), Nil));
    assert buf[0..0] == [];
    assert RevSpans(buf) == Cons(Span(1, 2), Nil);
    assert Views(buf, Cons(Span(1, 2), Nil)) == Cons([0x78], Nil);
    assert Views(buf, Cons(Span(0, 0), Cons(Span(1, 2), Nil))) == Cons([], Cons([0x78], Nil));
  }

  /** "\r\n": the "\r\n" test needs `end > 1`, so at offset 0 only the LF
      is excluded and the CR is delivered. */
  lemma LeadingCRLFKeepsCR()
    ensures RevLines([CR, LF]) == Cons([CR], Nil)
    ensures Lines([CR, LF]) == Cons([], Nil)
  {
    var buf: Bytes := [CR, LF];
    assert DropDelimiter(buf, 1) == 0 && LineStart(buf, 0) == 0;
    assert SpansFrom(buf, 1) == Cons(Span(0, 1), Nil);
    assert buf[0..1] == [CR];
    assert NextLF(buf, 0, 2) == 1 && ContentEnd(buf, 0, 1) == 0;
    assert SpansIn(buf, 0, 2) == Cons(Span(0, 0), Nil);
    assert buf[0..0] == [];
    assert RevSpans(buf) == Cons(Span(0, 1), Nil);
    assert Views(buf, Cons(Span(0, 1), Nil)) == Cons([CR], Nil);
    assert Views(buf, Cons(Span(0, 0), Nil)) == Cons([], Nil);
  }

  /** "\n\n": a delivered line always has at least one byte, so the walk
      delivers the first empty line together with its own LF, and loses the
      second empty line. */
  lemma EmptyLinesMerged()
    ensures RevLines([LF, LF]) == Cons([LF], Nil)
    ensures Lines([LF, LF]) == Cons([], Cons([], Nil))
  {
    var buf: Bytes := [LF, LF];
    assert DropDelimiter(buf, 1) == 0 && LineStart(buf, 0) == 0;
    assert SpansFrom(buf, 1) == Cons(Span(0, 1), Nil);
    assert buf[0..1] == [LF];
    assert NextLF(buf, 0, 2) == 0 && ContentEnd(buf, 0, 0) == 0;
    assert NextLF(buf, 1, 2) == 1 && ContentEnd(buf, 1, 1) == 1;
    assert SpansIn(buf, 1, 2) == Cons(Span(1, 1), Nil);
    assert SpansIn(buf, 0, 2) == Cons(Span(0, 0), Cons(Span(1, 1), Nil));
    assert buf[0..0] == [] && buf[1..1] == [];
    assert RevSpans(buf) == Cons(Span(0, 1), Nil);
    assert Views(buf, Cons(Span(0, 1), Nil)) == Cons([LF], Nil);
    assert Views(buf, Cons(Span(0, 0), Cons(Span(1, 1), Nil))) == Cons([], Cons([], Nil));
  }

  /** "a\n\nb": the empty middle line is lost, and "a" is delivered with
      its own LF. */
  lemma EmptyLineJoinsPrevious()
    ensures RevLines([0x61, LF, LF, 0x62]) == Cons([0x62], Cons([0x61, LF], Nil))
    ensures Lines([0x61, LF, LF, 0x62]) == Cons([0x61], Cons([], Cons([0x62], Nil)))
  {
    var buf: Bytes := [0x61, LF, LF, 0x62];
    assert DropDelimiter(buf, 3) == 3 && LineStart(buf, 3) == 3;
    assert DropDelimiter(buf, 2) == 1 && LineStart(buf, 1) == 0;
    assert SpansFrom(buf, 2) == Cons(Span(0, 2), Nil);
    assert SpansFrom(buf, 3) == Cons(Span(3, 4), Cons(Span(0, 2), Nil));
    assert buf[3..4] == [0x62] && buf[0..2] == [0x61, LF];
    assert NextLF(buf, 0, 4) == 1 && ContentEnd(buf, 0, 1) == 1;
    assert NextLF(buf, 2, 4) == 2 && ContentEnd(buf, 2, 2) == 2;
    assert NextLF(buf, 3, 4) == 4 && ContentEnd(buf, 3, 4) == 4;
    assert SpansIn(buf, 3, 4) == Cons(Span(3, 4), Nil);
    assert SpansIn(buf, 2, 4) == Cons(Span(2, 2), Cons(Span(3, 4), Nil));
    assert SpansIn(buf, 0, 4) == Cons(Span(0, 1), Cons(Span(2, 2), Cons(Span(3, 4), Nil)));
    assert buf[0..1] == [0x61] && buf[2..2] == [];
    assert RevSpans(buf) == Cons(Span(3, 4), Cons(Span(0, 2), Nil));
    assert Views(buf, Cons(Span(0, 2), Nil)) == Cons([0x61, LF], Nil);
    assert Views(buf, Cons(Span(3, 4), Cons(Span(0, 2), Nil))) == Cons([0x62], Cons([0x61, LF], Nil));
    assert Views(buf, Cons(Span(3, 4), Nil)) == Cons([0x62], Nil);
    assert Views(buf, Cons(Span(2, 2), Cons(Span(3, 4), Nil))) == Cons([], Cons([0x62], Nil));
    assert Views(buf, Cons(Span(0, 1), Cons(Span(2, 2), Cons(Span(3, 4), Nil))))
        == Cons([0x61], Cons([], Cons([0x62], Nil)));
  }

  /** "a\r\n\r\n": only the "\r\n" at the cursor is excluded; the scan stops
      at offset 0 and the first line is delivered with its "\r\n". */
  lemma EmptyLineKeepsCRLF()
    ensures RevLines([0x61, CR, LF, CR, LF]) == Cons([0x61, CR, LF], Nil)
    ensures Lines([0x61, CR, LF, CR, LF]) == Cons([0x61], Cons([], Nil))
  {
    var buf: Bytes := [0x61, CR, LF, CR, LF];
    assert DropDelimiter(buf, 4) == 2;
    assert LineStart(buf, 0) == 0 && LineStart(buf, 1) == 0 && LineStart(buf, 2) == 0;
    assert SpansFrom(buf, 4) == Cons(Span(0, 3), Nil);
    assert buf[0..3] == [0x61, CR, LF];
    assert RevSpans(buf) == Cons(Span(0, 3), Nil);
    assert Views(buf, Cons(Span(0, 3), Nil)) == Cons([0x61, CR, LF], Nil);
    NextLFIs(buf, 0, 5, 2);
    NextLFIs(buf, 3, 5, 4);
    assert ContentEnd(buf, 0, 2) == 1 && ContentEnd(buf, 3, 4) == 3;
    assert SpansIn(buf, 3, 5) == Cons(Span(3, 3), Nil);
    assert SpansIn(buf, 0, 5) == Cons(Span(0, 1), Cons(Span(3, 3), Nil));
    assert buf[0..1] == [0x61] && buf[3..3] == [];
    assert Views(buf, Cons(Span(3, 3), Nil)) == Cons([], Nil);
  }

  /** "a\r": with no LF after it, the final CR is delivered backwards, where
      the forward walk drops it. */
  lemma TrailingCRKept()
    ensures RevLines([0x61, CR]) == Cons([0x61, CR], Nil)
    ensures Lines([0x61, CR]) == Cons([0x61], Nil)
  {
    var buf: Bytes := [0x61, CR];
    assert LineStart(buf, 0) == 0;
    assert DropDelimiter(buf, 1) == 1 && LineStart(buf, 1) == 0;
    assert SpansFrom(buf, 1) == Cons(Span(0, 2), Nil);
    assert buf[0..2] == [0x61, CR];
    assert NextLF(buf, 1, 2) == 2;
    assert NextLF(buf, 0, 2) == 2 && ContentEnd(buf, 0, 2) == 1;
    assert SpansIn(buf, 0, 2) == Cons(Span(0, 1), Nil);
    assert buf[0..1] == [0x61];
    assert RevSpans(buf) == Cons(Span(0, 2), Nil);
    assert Views(buf, Cons(Span(0, 2), Nil)) == Cons([0x61, CR], Nil);
    assert Views(buf, Cons(Span(0, 1), Nil)) == Cons([0x61], Nil);
  }

  /** "Hello\nworld\n" is Plain: the forward walk delivers "Hello" then
      "world", and the reverse walk "world" then "Hello". */
  lemma HelloWorld()
    ensures var buf: Bytes := [0x48, 0x65, 0x6C, 0x6C, 0x6F, LF, 0x77, 0x6F, 0x72, 0x6C, 0x64, LF];
      var hello: Bytes := [0x48, 0x65, 0x6C, 0x6C, 0x6F];
      var world: Bytes := [0x77, 0x6F, 0x72, 0x6C, 0x64];
      && Plain(buf)
      && Lines(buf) == Cons(hello, Cons(world, Nil))
      && RevLines(buf) == Cons(world, Cons(hello, Nil))
  {
    var buf: Bytes := [0x48, 0x65, 0x6C, 0x6C, 0x6F, LF, 0x77, 0x6F, 0x72, 0x6C, 0x64, LF];
    var hello: Bytes := [0x48, 0x65, 0x6C, 0x6C, 0x6F];
    var world: Bytes := [0x77, 0x6F, 0x72, 0x6C, 0x64];
    assert Plain(buf);
    NextLFIs(buf, 0, 12, 5);
    NextLFIs(buf, 6, 12, 11);
    assert ContentEnd(buf, 0, 5) == 5 && ContentEnd(buf, 6, 11) == 11;
    assert SpansIn(buf, 6, 12) == Cons(Span(6, 11), Nil);
    assert SpansIn(buf, 0, 12) == Cons(Span(0, 5), Cons(Span(6, 11), Nil));
    assert buf[0..5] == hello && buf[6..11] == world;
    assert Views(buf, Cons(Span(6, 11), Nil)) == Cons(world, Nil);
    assert Lines(buf) == Cons(hello, Cons(world, Nil));
    ReverseMatchesForward(buf);
    assert Reversed(Cons(world, Nil)) == Cons(world, Nil);
  }
}
