// The aggregator that concatenates the sequences added to it: a growable
// buffer of sequences and a fill counter.

module SequenceAggregator {
  import opened Jdm

  /** What getAggregate answers for the added sequences: null for none, the
    * one sequence itself, or a nested sequence of all of them in order. */
  function Aggregate(added: seq<Sequence>): (r: Sequence)
    ensures (forall k :: 0 <= k < |added| ==> added[k] != Null) ==> (r == Null <==> added == [])
  {
    if |added| == 0 then Null else if |added| == 1 then added[0] else Nested(added)
  }

  /** The aggregate holds the items of the added sequences, one sequence
    * after the other: concatenation. */
  lemma AggregateItems(added: seq<Sequence>)
    ensures Items(Aggregate(added)) == ItemsOfAll(added)
  {
    if |added| == 1 {
      assert added[1..] == [];
    }
  }

  /** Arrays.copyOf: the first n entries of a, padded with null. */
  method CopyOf(a: array<Sequence>, n: nat) returns (b: array<Sequence>)
    ensures fresh(b) && b.Length == n
    ensures forall k :: 0 <= k < n ==> b[k] == (if k < a.Length then a[k] else Null)
  {
    b := new Sequence[n](_ => Null);
    for k := 0 to n
      invariant forall j :: 0 <= j < k ==> b[j] == (if j < a.Length then a[j] else Null)
      invariant forall j :: k <= j < n ==> b[j] == Null
    {
      if k < a.Length {
        b[k] := a[k];
      }
    }
  }

  class SequenceAggregator {
    var buf: array<Sequence>
    var len: nat

    /** The first len slots hold the added (non-null) sequences. */
    ghost predicate Valid()
      reads this, buf
    {
      len <= buf.Length && forall k :: 0 <= k < len ==> buf[k] != Null
    }

    /** The sequences added since the last clear, in order. */
    ghost function Contents(): seq<Sequence>
      requires Valid()
      reads this, buf
    {
      buf[..len]
    }

    constructor ()
      ensures Valid() && Contents() == [] && fresh(buf) && buf.Length == 5
    {
      buf := new Sequence[5](_ => Null);
      len := 0;
    }

    /** add: null is ignored; anything else goes to slot len. A full buffer
      * first grows to length*3/2+1, keeping its contents. */
    method Add(s: Sequence)
      requires Valid()
      modifies this, buf
      ensures Valid()
      ensures s == Null ==> len == old(len) && buf == old(buf) && Contents() == old(Contents())
      ensures s != Null ==> len == old(len) + 1 && Contents() == old(Contents()) + [s]
      ensures s != Null && old(len) == old(buf.Length) ==> fresh(buf) && buf.Length == old(buf.Length) * 3 / 2 + 1
      ensures s != Null && old(len) < old(buf.Length) ==> buf == old(buf)
    {
      if s == Null {
        return;
      }
      if len == buf.Length {
        buf := CopyOf(buf, buf.Length * 3 / 2 + 1);
      }
      buf[len] := s;
      len := len + 1;
    }

    /** getAggregate: the aggregate of the contents. Before a nested sequence
      * is made over the buffer, the buffer is cut to exactly len slots, so the
      * next add reallocates and never writes into the array handed out. */
    method GetAggregate() returns (r: Sequence)
      requires Valid()
      modifies this
      ensures Valid() && len == old(len) && Contents() == old(Contents())
      ensures r == Aggregate(Contents())
      ensures len >= 2 ==> buf.Length == len
    {
      if len == 0 {
        return Null;
      }
      if len == 1 {
        return buf[0];
      }
      if buf.Length != len {
        buf := CopyOf(buf, len);
      }
      r := Nested(buf[..]);
    }

    /** clear: empties the aggregator; a fresh five-slot buffer replaces the
      * old one only when more than one sequence was held. */
    method Clear()
      requires Valid()
      modifies this
      ensures Valid() && len == 0 && Contents() == []
      ensures old(len) > 1 ==> fresh(buf) && buf.Length == 5
      ensures old(len) <= 1 ==> buf == old(buf)
    {
      if len > 1 {
        buf := new Sequence[5](_ => Null);
      }
      len := 0;
    }
  }

  /** The aggregate of several added sequences is their concatenation, and
    * asking for it twice gives the same answer. */
  method AddAllThenAggregate(parts: seq<Sequence>) returns (r: Sequence, again: Sequence)
    ensures Items(r) == ItemsOfAll(NonNull(parts)) && again == r
  {
    var agg := new SequenceAggregator();
    for k := 0 to |parts|
      invariant fresh(agg) && fresh(agg.buf)
      invariant agg.Valid() && agg.Contents() == NonNull(parts[..k])
    {
      assert parts[..k + 1] == parts[..k] + [parts[k]];
      NonNullSnoc(parts[..k], parts[k]);
      agg.Add(parts[k]);
    }
    assert parts[..|parts|] == parts;
    r := agg.GetAggregate();
    AggregateItems(agg.Contents());
    again := agg.GetAggregate();
  }

  /** The non-null entries, in order. */
  function NonNull(parts: seq<Sequence>): (r: seq<Sequence>)
    ensures |r| <= |parts| && forall k :: 0 <= k < |r| ==> r[k] != Null
  {
    if parts == [] then []
    else if parts[|parts| - 1] == Null then NonNull(parts[..|parts| - 1])
    else NonNull(parts[..|parts| - 1]) + [parts[|parts| - 1]]
  }

  lemma NonNullSnoc(parts: seq<Sequence>, s: Sequence)
    ensures NonNull(parts + [s]) == if s == Null then NonNull(parts) else NonNull(parts) + [s]
  {
    assert (parts + [s])[..|parts|] == parts;
  }
}
