/**
 What a line walker hands to its callback. The walkers of src/file.rs call a
 callback once per line and stop as soon as it answers `true`; this module
 describes the resulting list of delivered items independently of any
 walker, and provides the reversal used to compare the two walking orders.
 */
module Delivery {

  /** A finite list; lines and delivered lines are kept as lists. An
      inductive list rather than `seq<Bytes>` keeps equalities between lists
      of lines structural, which the solver decides far more cheaply than
      the extensional equality of sequences of sequences. */
  datatype List<T> = Nil | Cons(head: T, tail: List<T>)

  function Length<T>(xs: List<T>): nat
  {
    match xs
    case Nil => 0
    case Cons(_, rest) => 1 + Length(rest)
  }

  /** The items of a list. */
  function Elems<T>(xs: List<T>): set<T>
  {
    match xs
    case Nil => {}
    case Cons(x, rest) => {x} + Elems(rest)
  }

  function Append<T>(xs: List<T>, ys: List<T>): List<T>
  {
    match xs
    case Nil => ys
    case Cons(x, rest) => Cons(x, Append(rest, ys))
  }

  /** `xs` followed by the single item `x`. */
  function Snoc<T>(xs: List<T>, x: T): List<T>
  {
    Append(xs, Cons(x, Nil))
  }

  /** `xs` in the opposite order. */
  function Reversed<T>(xs: List<T>): List<T>
  {
    match xs
    case Nil => Nil
    case Cons(x, rest) => Snoc(Reversed(rest), x)
  }

  lemma {:induction false} AppendNil<T>(xs: List<T>)
    ensures Append(xs, Nil) == xs
  {
    match xs
    case Nil =>
    case Cons(_, rest) => AppendNil(rest);
  }

  lemma {:induction false} AppendAssoc<T>(xs: List<T>, ys: List<T>, zs: List<T>)
    ensures Append(Append(xs, ys), zs) == Append(xs, Append(ys, zs))
  {
    match xs
    case Nil =>
    case Cons(_, rest) => AppendAssoc(rest, ys, zs);
  }

  lemma {:induction false} LengthAppend<T>(xs: List<T>, ys: List<T>)
    ensures Length(Append(xs, ys)) == Length(xs) + Length(ys)
    ensures Elems(Append(xs, ys)) == Elems(xs) + Elems(ys)
  {
    match xs
    case Nil =>
    case Cons(_, rest) => LengthAppend(rest, ys);
  }

  /** Reversing a concatenation swaps and reverses its parts. */
  lemma {:induction false} ReversedAppend<T>(xs: List<T>, ys: List<T>)
    ensures Reversed(Append(xs, ys)) == Append(Reversed(ys), Reversed(xs))
  {
    match xs
    case Nil =>
      AppendNil(Reversed(ys));
    case Cons(x, rest) =>
      ReversedAppend(rest, ys);
      AppendAssoc(Reversed(ys), Reversed(rest), Cons(x, Nil));
  }

  /** Reversal keeps the length and the items. */
  lemma {:induction false} ReversedKeepsItems<T>(xs: List<T>)
    ensures Length(Reversed(xs)) == Length(xs)
    ensures Elems(Reversed(xs)) == Elems(xs)
  {
    match xs
    case Nil =>
    case Cons(x, rest) =>
      ReversedKeepsItems(rest);
      LengthAppend(Reversed(rest), Cons(x, Nil));
  }

  /** The items delivered to a callback `stop` when walking `xs` in order:
      everything up to and including the first item on which `stop` answers
      true, or all of `xs` when it never does. */
  function TakeThrough<T>(xs: List<T>, stop: T -> bool): List<T>
  {
    match xs
    case Nil => Nil
    case Cons(x, rest) => if stop(x) then Cons(x, Nil) else Cons(x, TakeThrough(rest, stop))
  }

  /** Whether the callback answers false on every item of `xs`. */
  predicate NoneStop<T>(xs: List<T>, stop: T -> bool)
  {
    match xs
    case Nil => true
    case Cons(x, rest) => !stop(x) && NoneStop(rest, stop)
  }

  /** Items the callback lets pass are all delivered, and do not change
      what happens afterwards. */
  lemma {:induction false} TakeThroughAppend<T>(xs: List<T>, ys: List<T>, stop: T -> bool)
    requires NoneStop(xs, stop)
    ensures TakeThrough(Append(xs, ys), stop) == Append(xs, TakeThrough(ys, stop))
  {
    match xs
    case Nil =>
    case Cons(x, rest) =>
      TakeThroughAppend(rest, ys, stop);
  }

  /** A callback that never stops sees every item. */
  lemma {:induction false} TakeThroughNeverStops<T>(xs: List<T>, stop: T -> bool)
    requires NoneStop(xs, stop)
    ensures TakeThrough(xs, stop) == xs
  {
    TakeThroughAppend(xs, Nil, stop);
    AppendNil(xs);
  }

  /** The walk ends at the first item on which the callback answers true:
      that item is the last one delivered. */
  lemma {:induction false} TakeThroughStops<T>(xs: List<T>, x: T, ys: List<T>, stop: T -> bool)
    requires NoneStop(xs, stop) && stop(x)
    ensures TakeThrough(Append(xs, Cons(x, ys)), stop) == Snoc(xs, x)
  {
    TakeThroughAppend(xs, Cons(x, ys), stop);
  }

  /** Delivering `x`, the head of the items still to come, keeps a walk on
      track: either the callback stops and the walk is complete, or one item
      fewer remains. */
  lemma DeliverStep<T>(all: List<T>, delivered: List<T>, x: T, rest: List<T>, stop: T -> bool)
    requires all == Append(delivered, TakeThrough(Cons(x, rest), stop))
    ensures stop(x) ==> all == Snoc(delivered, x)
    ensures !stop(x) ==> all == Append(Snoc(delivered, x), TakeThrough(rest, stop))
  {
    if !stop(x) {
      AppendAssoc(delivered, Cons(x, Nil), TakeThrough(rest, stop));
    }
  }

  /** Reversing a list extended at the back puts the new item in front. */
  lemma ReversedSnoc<T>(xs: List<T>, x: T)
    ensures Reversed(Snoc(xs, x)) == Cons(x, Reversed(xs))
  {
    ReversedAppend(xs, Cons(x, Nil));
  }

  /** A walk delivers nothing that was not there to deliver. */
  lemma {:induction false} TakeThroughElems<T>(xs: List<T>, stop: T -> bool)
    ensures Elems(TakeThrough(xs, stop)) <= Elems(xs)
    ensures Length(TakeThrough(xs, stop)) <= Length(xs)
  {
    match xs
    case Nil =>
    case Cons(_, rest) => TakeThroughElems(rest, stop);
  }
}
