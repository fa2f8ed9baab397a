/**
 A corrected reverse walker. The walker of src/file.rs keeps its cursor on
 the last byte of what is left, which cannot tell "nothing left" from "only
 byte 0 left" and cannot describe an empty line. This one keeps `limit`,
 the number of bytes still to walk, and an exclusive line end, and it
 strips "\r\n" wherever it stands, as well as a final "\r" with no LF after
 it. It reuses the backward scan of the source. It delivers exactly the
 lines of the forward walker, last line first, on every buffer.
 */
module ReverseWalkerFixed {
  import opened Delivery
  import opened LineSplit
  import ReverseWalker

  /** One turn of the walk: the last line of `buf[..limit]` and the start of
      that line, which is where the rest of the walk stops. */
  method LastLineOf(buf: Bytes, limit: nat) returns (line: Bytes, pos: nat)
    requires 0 < limit <= |buf| && (limit == |buf| || buf[limit - 1] == LF)
    ensures pos < limit && (pos == 0 || buf[pos - 1] == LF)
    ensures Reversed(Views(buf, SpansIn(buf, 0, limit))) == Cons(line, Reversed(Views(buf, SpansIn(buf, 0, pos))))
  {
    var e := if buf[limit - 1] == LF then limit - 1 else limit;
    pos := ReverseWalker.ScanBack(buf, e);
    ReverseWalker.LineStartSkipsNoLF(buf, e);
    var hi := if e > pos && buf[e - 1] == CR then e - 1 else e;
    line := buf[pos..hi];
    LastLine(buf, pos, e, limit);
    LastLineView(buf, limit, pos, hi, SpansIn(buf, 0, pos));
  }

  /** Viewed and reversed, a region whose last line is `buf[pos..hi]` starts
      with that line. */
  lemma LastLineView(buf: Bytes, limit: nat, pos: nat, hi: nat, before: List<Span>)
    requires pos <= hi <= limit <= |buf|
    requires SpansIn(buf, 0, limit) == Snoc(before, Span(pos, hi))
    ensures Reversed(Views(buf, SpansIn(buf, 0, limit))) == Cons(buf[pos..hi], Reversed(Views(buf, before)))
  {
    ViewsAppend(buf, before, Cons(Span(pos, hi), Nil));
    ReversedSnoc(Views(buf, before), buf[pos..hi]);
  }

  /** Hands the lines of `buf` to the callback from the last to the first
      and stops after the first line on which it answers true. */
  method ForEachLineReverse(buf: Bytes, stop: Bytes -> bool) returns (delivered: List<Bytes>)
    ensures delivered == TakeThrough(Reversed(Lines(buf)), stop)
    ensures |buf| == 0 ==> delivered == Nil
    ensures forall line :: line in Elems(delivered) ==> line in Elems(Lines(buf)) && LF !in line
    ensures Length(delivered) <= Length(Lines(buf))
  {
    ghost var all := TakeThrough(Reversed(Lines(buf)), stop);
    var limit: nat := |buf|;
    delivered := Nil;
    while limit > 0
      invariant limit <= |buf| && (limit == 0 || limit == |buf| || buf[limit - 1] == LF)
      invariant all == Append(delivered, TakeThrough(Reversed(Views(buf, SpansIn(buf, 0, limit))), stop))
      decreases limit
    {
      var line, pos := LastLineOf(buf, limit);
      DeliverStep(all, delivered, line, Reversed(Views(buf, SpansIn(buf, 0, pos))), stop);
      limit := pos;
      delivered := Snoc(delivered, line);
      if stop(line) {
        break;
      }
    }
    AppendNil(delivered);
    TakeThroughElems(Reversed(Lines(buf)), stop);
    ReversedKeepsItems(Lines(buf));
    LinesHaveNoLF(buf);
  }
}
