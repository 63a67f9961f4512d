// The push-based (block) let-binding: its sink extends every tuple of a
// batch, in place in the batch buffer, by the bound expression's value and
// forwards the same buffer downstream; the control calls are passed on.

module BlockLetBind {
  import opened Jdm
  import opened Tuples

  /** What a downstream sink has been told, in order. */
  datatype SinkEvent =
    | Began
    | Ended
    | Failed
    | Received(batch: seq<Tuple>)
    | Forked(child: RecordingSink)
    | Partitioned(stopAt: RecordingSink, child: RecordingSink)

  /** A downstream sink, modelled by the calls it receives. */
  class RecordingSink {
    var events: seq<SinkEvent>

    constructor ()
      ensures events == []
    {
      events := [];
    }

    method Output(buf: array<Tuple>, len: nat)
      requires len <= buf.Length
      modifies this
      ensures events == old(events) + [Received(buf[..len])]
    {
      events := events + [Received(buf[..len])];
    }

    method Begin()
      modifies this
      ensures events == old(events) + [Began]
    {
      events := events + [Began];
    }

    method End()
      modifies this
      ensures events == old(events) + [Ended]
    {
      events := events + [Ended];
    }

    method Fail()
      modifies this
      ensures events == old(events) + [Failed]
    {
      events := events + [Failed];
    }

    method Fork() returns (child: RecordingSink)
      modifies this
      ensures fresh(child) && child.events == []
      ensures events == old(events) + [Forked(child)]
    {
      child := new RecordingSink();
      events := events + [Forked(child)];
    }

    method Partition(stopAt: RecordingSink) returns (child: RecordingSink)
      modifies this
      ensures fresh(child) && child.events == []
      ensures events == old(events) + [Partitioned(stopAt, child)]
    {
      child := new RecordingSink();
      events := events + [Partitioned(stopAt, child)];
    }
  }

  /** outputWidth: one slot more than the input. */
  function OutputWidth(inputWidth: int): (w: int)
    ensures w - 1 == inputWidth
  {
    inputWidth + 1
  }

  /** The tuple a batch entry becomes. */
  function Bound(expr: Tuple -> Sequence, t: Tuple): (r: Tuple)
    ensures Size(r) == OutputWidth(Size(t))
    ensures ProjectRange(r, 0, Size(t)) == t && Get(r, Size(t)) == expr(t)
  {
    var r := Concat(t, expr(t));
    assert ProjectRange(r, 0, Size(t)).slots == t.slots;
    r
  }

  class LetBindSink {
    const expr: Tuple -> Sequence    // expr.evaluate(ctx, t)
    const sink: RecordingSink

    constructor (expr: Tuple -> Sequence, sink: RecordingSink)
      ensures this.expr == expr && this.sink == sink
    {
      this.expr := expr;
      this.sink := sink;
    }

    /** output(buf, len): binds the first len entries in place, in index order, then
      * forwards the same buffer and length downstream. */
    method Output(buf: array<Tuple>, len: nat)
      requires len <= buf.Length
      modifies buf, sink
      ensures forall i :: 0 <= i < len ==> buf[i] == Bound(expr, old(buf[i]))
      ensures forall i :: len <= i < buf.Length ==> buf[i] == old(buf[i])
      ensures sink.events == old(sink.events) + [Received(buf[..len])]
    {
      var i := 0;
      while i < len
        invariant 0 <= i <= len
        invariant forall k :: 0 <= k < i ==> buf[k] == Bound(expr, old(buf[k]))
        invariant forall k :: i <= k < buf.Length ==> buf[k] == old(buf[k])
        invariant sink.events == old(sink.events)
      {
        var t := buf[i];
        buf[i] := Concat(t, expr(t));
        i := i + 1;
      }
      sink.Output(buf, len);
    }

    method Fork() returns (s: LetBindSink)
      modifies sink
      ensures fresh(s) && fresh(s.sink) && s.expr == expr && s.sink.events == []
      ensures sink.events == old(sink.events) + [Forked(s.sink)]
    {
      var child := sink.Fork();
      s := new LetBindSink(expr, child);
    }

    method Partition(stopAt: RecordingSink) returns (s: LetBindSink)
      modifies sink
      ensures fresh(s) && fresh(s.sink) && s.expr == expr && s.sink.events == []
      ensures sink.events == old(sink.events) + [Partitioned(stopAt, s.sink)]
    {
      var child := sink.Partition(stopAt);
      s := new LetBindSink(expr, child);
    }

    method End()
      modifies sink
      ensures sink.events == old(sink.events) + [Ended]
    {
      sink.End();
    }

    method Begin()
      modifies sink
      ensures sink.events == old(sink.events) + [Began]
    {
      sink.Begin();
    }

    method Fail()
      modifies sink
      ensures sink.events == old(sink.events) + [Failed]
    {
      sink.Fail();
    }
  }

  /** create(ctx, sink): a let-bind sink in front of the given sink. */
  method Create(expr: Tuple -> Sequence, sink: RecordingSink) returns (s: LetBindSink)
    ensures fresh(s) && s.expr == expr && s.sink == sink
  {
    s := new LetBindSink(expr, sink);
  }
}
