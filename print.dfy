// The debugging print operator: it passes every tuple through unchanged,
// counts them, and writes each as a row of fixed-width, centred cells.

module PrintOperator {
  import opened Base
  import opened Jdm
  import opened Tuples
  import opened Cursors

  const MaxSize: nat := 20

  function Spaces(n: nat): (r: string)
    ensures |r| == n && forall k :: 0 <= k < n ==> r[k] == ' '
  {
    seq(n, _ => ' ')
  }

  /** A cell's text: cut to MaxSize characters, or centred in MaxSize with spaces
    * (the odd space goes to the right). */
  function Fit(s: string): (r: string)
    ensures |r| == MaxSize
  {
    if |s| == MaxSize then s
    else if |s| > MaxSize then s[..MaxSize]
    else
      var lead := (MaxSize - |s|) / 2;
      Spaces(lead) + s + Spaces(MaxSize - |s| - lead)
  }

  /** A cell never exceeds MaxSize: a long text keeps its first MaxSize characters, a
    * short one sits in the middle, with at most one more space on the right than on the left. */
  lemma FitCentres(s: string)
    ensures |s| >= MaxSize ==> Fit(s) == s[..MaxSize]
    ensures |s| < MaxSize ==>
              var r, lead := Fit(s), (MaxSize - |s|) / 2;
              r[lead..lead + |s|] == s &&
              (forall k :: 0 <= k < lead ==> r[k] == ' ') &&
              (forall k :: lead + |s| <= k < MaxSize ==> r[k] == ' ') &&
              lead <= MaxSize - |s| - lead <= lead + 1
  {
    if |s| < MaxSize {
      var r, lead := Fit(s), (MaxSize - |s|) / 2;
      assert r == Spaces(lead) + s + Spaces(MaxSize - |s| - lead);
      assert r[lead..lead + |s|] == s;
    }
  }

  /** shrinkOrPad: builds the cell in a fixed char buffer, as the source does. */
  method ShrinkOrPad(s: string) returns (r: string)
    ensures r == Fit(s)
  {
    var length := |s|;
    if length == MaxSize {
      return s;
    }
    if length > MaxSize {
      return s[..MaxSize];
    }
    var toAdd := MaxSize - length;
    var result := new char[MaxSize];
    var i := 0;
    while i < toAdd / 2
      invariant 0 <= i <= toAdd / 2
      invariant forall k :: 0 <= k < i ==> result[k] == ' '
    {
      result[i] := ' ';
      i := i + 1;
    }
    forall k | 0 <= k < length {
      result[i + k] := s[k];
    }
    var j := i + length;
    while i < toAdd
      invariant toAdd / 2 <= i <= toAdd && j == i + length
      invariant forall k :: 0 <= k < toAdd / 2 ==> result[k] == ' '
      invariant forall k :: 0 <= k < length ==> result[toAdd / 2 + k] == s[k]
      invariant forall k :: toAdd / 2 + length <= k < j ==> result[k] == ' '
    {
      result[j] := ' ';
      i := i + 1;
      j := j + 1;
    }
    r := result[..];
    PaddedIsFit(r, s);
  }

  /** A MAX_SIZE text holding s after (MAX_SIZE - |s|) / 2 spaces and spaces after it is the fitted cell. */
  lemma PaddedIsFit(r: string, s: string)
    requires |s| < MaxSize && |r| == MaxSize
    requires forall k :: 0 <= k < (MaxSize - |s|) / 2 ==> r[k] == ' '
    requires forall k :: 0 <= k < |s| ==> r[(MaxSize - |s|) / 2 + k] == s[k]
    requires forall k :: (MaxSize - |s|) / 2 + |s| <= k < MaxSize ==> r[k] == ' '
    ensures r == Fit(s)
  {
    var lead := (MaxSize - |s|) / 2;
    var f := Fit(s);
    assert f == Spaces(lead) + s + Spaces(MaxSize - |s| - lead);
    forall k | 0 <= k < MaxSize
      ensures r[k] == f[k]
    {
      if k < lead {
      } else if k < lead + |s| {
        assert r[lead + (k - lead)] == s[k - lead];
      }
    }
  }

  /** One printed cell: " " + fitted text + " |"; a null slot prints as "()". */
  function Cell(show: Sequence -> string, s: Sequence): string
  {
    " " + Fit(if s.Null? then "()" else show(s)) + " |"
  }

  function Cells(show: Sequence -> string, slots: seq<Sequence>): string
  {
    if slots == [] then [] else Cells(show, slots[..|slots| - 1]) + Cell(show, slots[|slots| - 1])
  }

  lemma CellsSnoc(show: Sequence -> string, slots: seq<Sequence>, i: nat)
    requires i < |slots|
    ensures Cells(show, slots[..i + 1]) == Cells(show, slots[..i]) + Cell(show, slots[i])
  {
    assert slots[..i + 1][..i] == slots[..i];
  }

  /** The line next() prints for a tuple. */
  function RowText(show: Sequence -> string, t: Tuple): string
  {
    "|" + Cells(show, t.slots) + "\n"
  }

  /** Every row has the same width for tuples of the same size: each cell takes 23 characters. */
  lemma {:induction false} RowWidth(show: Sequence -> string, t: Tuple)
    ensures |RowText(show, t)| == 2 + 23 * Size(t)
  {
    CellsWidth(show, t.slots);
  }

  lemma {:induction false} CellsWidth(show: Sequence -> string, slots: seq<Sequence>)
    ensures |Cells(show, slots)| == 23 * |slots|
    decreases |slots|
  {
    if slots != [] {
      CellsWidth(show, slots[..|slots| - 1]);
    }
  }

  /** The body of next()'s loop for one slot. */
  method PrintCell(out: OutStream, show: Sequence -> string, slot: Sequence)
    modifies out
    ensures out.text == old(out.text) + Cell(show, slot)
  {
    out.Print(" ");
    var s := if slot.Null? then "()" else show(slot);
    s := ShrinkOrPad(s);
    out.Print(s);
    out.Print(" |");
  }

  /** The row next() prints for a tuple: "|", one cell per slot, a line break. */
  method PrintRow(out: OutStream, show: Sequence -> string, t: Tuple)
    modifies out
    ensures out.text == old(out.text) + RowText(show, t)
  {
    ghost var start := out.text;
    out.Print("|");
    var i := 0;
    while i < Size(t)
      invariant 0 <= i <= Size(t)
      invariant out.text == start + "|" + Cells(show, t.slots[..i])
    {
      ghost var prefix := out.text;
      PrintCell(out, show, Get(t, i));
      PrintRowStep(show, t.slots, i, start, prefix, out.text);
      i := i + 1;
    }
    assert t.slots[..i] == t.slots;
    ghost var body := out.text;
    out.Print("\n");
    RowTextAppended(show, t, start, body, out.text);
  }

  lemma RowTextAppended(show: Sequence -> string, t: Tuple, start: string, body: string, text: string)
    requires body == start + "|" + Cells(show, t.slots) && text == body + "\n"
    ensures text == start + RowText(show, t)
  {
  }

  lemma PrintRowStep(show: Sequence -> string, slots: seq<Sequence>, i: nat, start: string, prefix: string, text: string)
    requires i < |slots|
    requires prefix == start + "|" + Cells(show, slots[..i])
    requires text == prefix + Cell(show, slots[i])
    ensures text == start + "|" + Cells(show, slots[..i + 1])
  {
    CellsSnoc(show, slots, i);
  }

  class PrintCursor {
    const c: TupleCursor
    const header: seq<Tuple>               // the tuples create() received
    const out: OutStream
    const show: Sequence -> string          // asString(ctx, sequence)
    const showTuples: seq<Tuple> -> string  // Arrays.toString of the header tuples
    var count: nat

    constructor (c: TupleCursor, header: seq<Tuple>, out: OutStream,
                 show: Sequence -> string, showTuples: seq<Tuple> -> string)
      ensures this.c == c && this.header == header && this.out == out
      ensures this.show == show && this.showTuples == showTuples && count == 0
    {
      this.c := c;
      this.header := header;
      this.out := out;
      this.show := show;
      this.showTuples := showTuples;
      count := 0;
    }

    method Open()
      modifies c`isOpen, this`count, out
      ensures c.isOpen && count == 0
      ensures out.text == old(out.text) + "--- " + showTuples(header) + "\n"
    {
      c.Open();
      count := 0;
      out.Print("--- ");
      out.Print(showTuples(header) + "\n");
    }

    /** next(): the upstream tuple itself; a non-null one is counted and printed as a row. */
    method Next() returns (r: Option<Tuple>)
      requires c.Valid()
      modifies c`pos, this`count, out
      ensures c.Valid()
      ensures old(c.pos) == |c.tuples| ==> (r == None && c.pos == old(c.pos) &&
                                            count == old(count) && out.text == old(out.text))
      ensures old(c.pos) < |c.tuples| ==> (r == Some(c.tuples[old(c.pos)]) && c.pos == old(c.pos) + 1 &&
                                           count == old(count) + 1 &&
                                           out.text == old(out.text) + RowText(show, r.value))
    {
      r := c.Next();
      if r.Some? {
        count := count + 1;
        PrintRow(out, show, r.value);
      }
    }

    /** close(): closes upstream and prints the result count. */
    method Close()
      modifies c`isClosed, out
      ensures c.isClosed
      ensures out.text == old(out.text) + "---\n" + NatToString(count) + " results\n"
    {
      c.Close();
      out.Print("---\n");
      out.Print(NatToString(count));
      out.Print(" results\n");
    }
  }

  class Print {
    const inWidth: int -> int
    const inCreate: Tuple -> seq<Tuple>
    /** The upstream create over a tuple buffer and its fill length. */
    const inCreateBuf: (seq<Tuple>, nat) -> seq<Tuple>
    const out: OutStream
    const show: Sequence -> string
    const showTuples: seq<Tuple> -> string

    constructor (inWidth: int -> int, inCreate: Tuple -> seq<Tuple>, inCreateBuf: (seq<Tuple>, nat) -> seq<Tuple>,
                 out: OutStream, show: Sequence -> string, showTuples: seq<Tuple> -> string)
      ensures this.inWidth == inWidth && this.inCreate == inCreate && this.inCreateBuf == inCreateBuf
      ensures this.out == out && this.show == show && this.showTuples == showTuples
    {
      this.inWidth := inWidth;
      this.inCreate := inCreate;
      this.inCreateBuf := inCreateBuf;
      this.out := out;
      this.show := show;
      this.showTuples := showTuples;
    }

    /** create(tuple): a fresh print cursor over the upstream cursor, with [tuple] as header. */
    method Create(t: Tuple) returns (pc: PrintCursor)
      ensures fresh(pc) && fresh(pc.c) && pc.c.Valid() && pc.c.tuples == inCreate(t) && pc.c.pos == 0
      ensures pc.header == [t] && pc.out == out && pc.count == 0
    {
      var up := new TupleCursor(inCreate(t));
      pc := new PrintCursor(up, [t], out, show, showTuples);
    }

    /** create(buf, len): the whole buffer is the header, not only its first len tuples. */
    method CreateBuffered(buf: seq<Tuple>, len: nat) returns (pc: PrintCursor)
      ensures fresh(pc) && fresh(pc.c) && pc.c.Valid() && pc.c.tuples == inCreateBuf(buf, len) && pc.c.pos == 0
      ensures pc.header == buf && pc.out == out && pc.count == 0
    {
      var up := new TupleCursor(inCreateBuf(buf, len));
      pc := new PrintCursor(up, buf, out, show, showTuples);
    }

    /** tupleWidth: printing does not change the width. */
    function TupleWidth(initSize: int): (w: int)
      ensures w == inWidth(initSize)
    {
      inWidth(initSize)
    }
  }
}
