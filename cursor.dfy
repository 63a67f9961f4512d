// The pull-based cursor protocol (open / next / close) of the operator
// pipeline, with a concrete upstream cursor that replays a fixed list of
// tuples, and an output stream that collects printed text.

module Cursors {
  import opened Base
  import opened Tuples

  /** An upstream cursor: yields `tuples` in order, then None (Java null). */
  class TupleCursor {
    const tuples: seq<Tuple>
    var pos: nat
    var isOpen: bool
    var isClosed: bool

    ghost predicate Valid()
      reads this
    {
      pos <= |tuples|
    }

    constructor (ts: seq<Tuple>)
      ensures Valid() && tuples == ts && pos == 0 && !isOpen && !isClosed
    {
      tuples := ts;
      pos := 0;
      isOpen := false;
      isClosed := false;
    }

    method Open()
      modifies this`isOpen
      ensures isOpen
    {
      isOpen := true;
    }

    method Next() returns (r: Option<Tuple>)
      requires Valid()
      modifies this`pos
      ensures Valid()
      ensures old(pos) < |tuples| ==> r == Some(tuples[old(pos)]) && pos == old(pos) + 1
      ensures old(pos) == |tuples| ==> r == None && pos == old(pos)
    {
      if pos < |tuples| {
        r := Some(tuples[pos]);
        pos := pos + 1;
      } else {
        r := None;
      }
    }

    method Close()
      modifies this`isClosed
      ensures isClosed
    {
      isClosed := true;
    }
  }

  /** A PrintStream, modelled by the text written to it so far. */
  class OutStream {
    var text: string

    constructor ()
      ensures text == []
    {
      text := [];
    }

    method Print(s: string)
      modifies this
      ensures text == old(text) + s
    {
      text := text + s;
    }
  }
}
