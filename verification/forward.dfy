/**
 The forward walker `buffer_for_each_line` of src/file.rs. The callback is
 a pure function `stop` that answers whether the walk should end after the
 line it is given; the walker returns the lines it handed over, in order.
 */
module ForwardWalker {
  import opened Delivery
  import opened LineSplit

  /** The scan for the end of the line that starts at `pos`: the first LF at
      or after `pos`, or the end of the buffer. */
  method ScanToLF(buf: Bytes, pos: nat) returns (end: nat)
    requires pos < |buf|
    ensures end == NextLF(buf, pos, |buf|)
  {
    end := pos;
    while end < |buf| && buf[end] != LF
      invariant pos <= end <= |buf|
      invariant forall k :: pos <= k < end ==> buf[k] != LF
    {
      end := end + 1;
    }
    NextLFIs(buf, pos, |buf|, end);
  }

  /** Hands the lines of `buf` to the callback front to back and stops after
      the first line on which it answers true. */
  method ForEachLine(buf: Bytes, stop: Bytes -> bool) returns (delivered: List<Bytes>)
    ensures delivered == TakeThrough(Lines(buf), stop)
    ensures |buf| == 0 ==> delivered == Nil
    ensures forall line :: line in Elems(delivered) ==> LF !in line
  {
    ghost var all := TakeThrough(Lines(buf), stop);
    var pos: nat := 0;
    var size := |buf|;
    delivered := Nil;
    while pos < size
      invariant pos <= size + 1
      invariant all == Append(delivered, TakeThrough(Views(buf, SpansIn(buf, pos, size)), stop))
      decreases size - pos
    {
      var end := ScanToLF(buf, pos);
      var len := end - pos;
      if end > pos && buf[end - 1] == CR {
        len := len - 1;
      }
      var line := buf[pos..pos + len];
      ghost var later := Views(buf, SpansIn(buf, end + 1, size));
      FirstLine(buf, pos, end, len, line, later);
      DeliverStep(all, delivered, line, later, stop);
      pos := end + 1;
      delivered := Snoc(delivered, line);
      if stop(line) {
        break;
      }
    }
    AppendNil(delivered);
    LinesHaveNoLF(buf);
    TakeThroughElems(Lines(buf), stop);
  }

  /** The bytes the loop body cuts out at `pos` are the first line of the
      rest of the buffer. */
  lemma FirstLine(buf: Bytes, pos: nat, end: nat, len: nat, line: Bytes, later: List<Bytes>)
    requires pos < |buf| && end == NextLF(buf, pos, |buf|)
    requires len == if end > pos && buf[end - 1] == CR then end - pos - 1 else end - pos
    requires line == buf[pos..pos + len]
    requires later == Views(buf, SpansIn(buf, end + 1, |buf|))
    ensures Views(buf, SpansIn(buf, pos, |buf|)) == Cons(line, later)
  {
  }
}
