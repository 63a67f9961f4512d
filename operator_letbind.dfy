// The pull-based let-binding operator: its cursor extends every upstream
// tuple by one slot holding the bound expression's value (or the empty
// sequence for a tuple the check marks dead); with binding switched off the
// operator hands out the upstream cursor itself.

module OperatorLetBind {
  import opened Base
  import opened Jdm
  import opened Tuples
  import opened Cursors

  /** The tuple the cursor yields for an upstream tuple t. */
  function Extended(source: Tuple -> Sequence, check: bool, dead: Tuple -> bool, t: Tuple): Tuple
  {
    if check && dead(t) then Concat(t, Null) else Concat(t, source(t))
  }

  /** The yielded tuple is t plus one slot: the bound value, or null for a dead tuple. */
  lemma ExtendedShape(source: Tuple -> Sequence, check: bool, dead: Tuple -> bool, t: Tuple)
    ensures Size(Extended(source, check, dead, t)) == Size(t) + 1
    ensures ProjectRange(Extended(source, check, dead, t), 0, Size(t)) == t
    ensures Get(Extended(source, check, dead, t), Size(t)) == (if check && dead(t) then Null else source(t))
  {
    var e := Extended(source, check, dead, t);
    assert ProjectRange(e, 0, Size(t)).slots == t.slots;
  }

  class LetBindCursor {
    const c: TupleCursor
    const source: Tuple -> Sequence
    const check: bool
    const dead: Tuple -> bool

    constructor (c: TupleCursor, source: Tuple -> Sequence, check: bool, dead: Tuple -> bool)
      ensures this.c == c && this.source == source && this.check == check && this.dead == dead
    {
      this.c := c;
      this.source := source;
      this.check := check;
      this.dead := dead;
    }

    method Open()
      modifies c`isOpen
      ensures c.isOpen
    {
      c.Open();
    }

    /** next(): None when upstream is exhausted, else the extended upstream tuple. */
    method Next() returns (r: Option<Tuple>)
      requires c.Valid()
      modifies c`pos
      ensures c.Valid()
      ensures old(c.pos) == |c.tuples| ==> r == None && c.pos == old(c.pos)
      ensures old(c.pos) < |c.tuples| ==>
                c.pos == old(c.pos) + 1 && r == Some(Extended(source, check, dead, c.tuples[old(c.pos)]))
    {
      var t := c.Next();
      if t.None? {
        return None;
      }
      if check && dead(t.value) {
        return Some(Concat(t.value, Null));
      }
      var s := source(t.value);
      r := Some(Concat(t.value, s));
    }

    method Close()
      modifies c`isClosed
      ensures c.isClosed
    {
      c.Close();
    }
  }

  /** What create() hands out: a wrapping let-bind cursor or the upstream cursor itself. */
  datatype CreatedCursor = Wrapped(wrapper: LetBindCursor) | Upstream(upstream: TupleCursor)

  class LetBind {
    const inWidth: int -> int            // in.tupleWidth
    const inCreate: Tuple -> seq<Tuple>   // the tuples in's cursor yields for an input tuple
    const inCreateBuf: (seq<Tuple>, nat) -> seq<Tuple>  // the same for a tuple buffer and its fill length
    const source: Tuple -> Sequence
    const check: bool
    const dead: Tuple -> bool
    var bind: bool

    /** The upstream operator's width matches the tuples it yields. */
    ghost predicate WidthConsistent()
    {
      forall t: Tuple, u: Tuple :: u in inCreate(t) ==> Size(u) == inWidth(Size(t))
    }

    constructor (inWidth: int -> int, inCreate: Tuple -> seq<Tuple>, inCreateBuf: (seq<Tuple>, nat) -> seq<Tuple>,
                 source: Tuple -> Sequence, check: bool, dead: Tuple -> bool)
      ensures this.inWidth == inWidth && this.inCreate == inCreate && this.inCreateBuf == inCreateBuf
      ensures this.source == source && this.check == check && this.dead == dead && bind
    {
      this.inWidth := inWidth;
      this.inCreate := inCreate;
      this.inCreateBuf := inCreateBuf;
      this.source := source;
      this.check := check;
      this.dead := dead;
      bind := true;
    }

    method Bind(b: bool)
      modifies this`bind
      ensures bind == b
    {
      bind := b;
    }

    /** tupleWidth: one slot more than upstream while binding, the same otherwise. */
    function TupleWidth(initSize: int): (w: int)
      reads this
      ensures bind ==> w == inWidth(initSize) + 1
      ensures !bind ==> w == inWidth(initSize)
    {
      inWidth(initSize) + (if bind then 1 else 0)
    }

    method Create(t: Tuple) returns (r: CreatedCursor)
      ensures bind <==> r.Wrapped?
      ensures r.Wrapped? ==> (fresh(r.wrapper) && fresh(r.wrapper.c) && r.wrapper.c.Valid() &&
                              r.wrapper.c.tuples == inCreate(t) && r.wrapper.c.pos == 0 &&
                              r.wrapper.source == source && r.wrapper.check == check && r.wrapper.dead == dead)
      ensures r.Upstream? ==> (fresh(r.upstream) && r.upstream.Valid() &&
                               r.upstream.tuples == inCreate(t) && r.upstream.pos == 0)
    {
      var up := new TupleCursor(inCreate(t));
      if bind {
        var w := new LetBindCursor(up, source, check, dead);
        r := Wrapped(w);
      } else {
        r := Upstream(up);
      }
    }

    /** create(buf, len): the same choice over the input's cursor for a tuple buffer. */
    method CreateBuffered(buf: seq<Tuple>, len: nat) returns (r: CreatedCursor)
      ensures bind <==> r.Wrapped?
      ensures r.Wrapped? ==> (fresh(r.wrapper) && fresh(r.wrapper.c) && r.wrapper.c.Valid() &&
                              r.wrapper.c.tuples == inCreateBuf(buf, len) && r.wrapper.c.pos == 0 &&
                              r.wrapper.source == source && r.wrapper.check == check && r.wrapper.dead == dead)
      ensures r.Upstream? ==> (fresh(r.upstream) && r.upstream.Valid() &&
                               r.upstream.tuples == inCreateBuf(buf, len) && r.upstream.pos == 0)
    {
      var up := new TupleCursor(inCreateBuf(buf, len));
      if bind {
        var w := new LetBindCursor(up, source, check, dead);
        r := Wrapped(w);
      } else {
        r := Upstream(up);
      }
    }
  }

  /** Every tuple a binding cursor yields has the width tupleWidth announces. */
  lemma YieldedWidth(op: LetBind, t: Tuple, u: Tuple)
    requires op.WidthConsistent() && op.bind
    requires u in op.inCreate(t)
    ensures Size(Extended(op.source, op.check, op.dead, u)) == op.TupleWidth(Size(t))
  {
    ExtendedShape(op.source, op.check, op.dead, u);
  }
}
