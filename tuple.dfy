// The tuple algebra of the operator pipeline: a tuple is a fixed row of
// sequences, and every operation returns a new tuple, leaving its argument
// untouched.

module Tuples {
  import opened Jdm

  datatype Tuple = Tuple(slots: seq<Sequence>)

  function Size(t: Tuple): nat
  {
    |t.slots|
  }

  function Get(t: Tuple, position: nat): Sequence
    requires position < Size(t)
  {
    t.slots[position]
  }

  /** The tuple's slots as an array copy. */
  function ToArray(t: Tuple): (r: seq<Sequence>)
    ensures |r| == Size(t) && forall i :: 0 <= i < |r| ==> r[i] == Get(t, i)
  {
    t.slots
  }

  predicate ValidPositions(t: Tuple, positions: seq<int>)
  {
    forall i :: 0 <= i < |positions| ==> 0 <= positions[i] < Size(t)
  }

  /** project(positions): a new tuple holding the given positions, in the order given. */
  function Project(t: Tuple, positions: seq<int>): (r: Tuple)
    requires ValidPositions(t, positions)
    ensures Size(r) == |positions|
    ensures forall i :: 0 <= i < |positions| ==> Get(r, i) == Get(t, positions[i])
    decreases |positions|
  {
    if positions == [] then Tuple([])
    else Tuple([t.slots[positions[0]]] + Project(t, positions[1..]).slots)
  }

  /** project(start, end): the slots from start (inclusive) to end (exclusive). */
  function ProjectRange(t: Tuple, start: nat, end: nat): (r: Tuple)
    requires start <= end <= Size(t)
    ensures Size(r) == end - start
    ensures forall i :: 0 <= i < end - start ==> Get(r, i) == Get(t, start + i)
  {
    Tuple(t.slots[start..end])
  }

  /** replace(position, s): a copy whose slot `position` holds s. */
  function Replace(t: Tuple, position: nat, s: Sequence): (r: Tuple)
    requires position < Size(t)
    ensures Size(r) == Size(t) && Get(r, position) == s
    ensures forall i :: 0 <= i < Size(t) && i != position ==> Get(r, i) == Get(t, i)
  {
    Tuple(t.slots[position := s])
  }

  /** concat(s): a copy with s appended as a new last slot. */
  function Concat(t: Tuple, s: Sequence): (r: Tuple)
    ensures Size(r) == Size(t) + 1 && Get(r, Size(t)) == s
    ensures forall i :: 0 <= i < Size(t) ==> Get(r, i) == Get(t, i)
  {
    Tuple(t.slots + [s])
  }

  /** concat(s[]): a copy with every sequence of s appended, in order. */
  function ConcatAll(t: Tuple, s: seq<Sequence>): (r: Tuple)
    ensures Size(r) == Size(t) + |s|
    ensures forall i :: 0 <= i < Size(t) ==> Get(r, i) == Get(t, i)
    ensures forall i :: 0 <= i < |s| ==> Get(r, Size(t) + i) == s[i]
  {
    Tuple(t.slots + s)
  }

  /** conreplace(con, position, s): append con to a copy, then replace `position`. */
  function Conreplace(t: Tuple, con: Sequence, position: nat, s: Sequence): (r: Tuple)
    requires position <= Size(t)
    ensures Size(r) == Size(t) + 1 && Get(r, position) == s
    ensures position != Size(t) ==> Get(r, Size(t)) == con
    ensures forall i :: 0 <= i < Size(t) && i != position ==> Get(r, i) == Get(t, i)
  {
    Replace(Concat(t, con), position, s)
  }

  /** conreplace(con[], position, s): append all of con to a copy, then replace `position`. */
  function ConreplaceAll(t: Tuple, con: seq<Sequence>, position: nat, s: Sequence): (r: Tuple)
    requires position < Size(t) + |con|
    ensures Size(r) == Size(t) + |con| && Get(r, position) == s
    ensures forall i :: 0 <= i < |con| && Size(t) + i != position ==> Get(r, Size(t) + i) == con[i]
    ensures forall i :: 0 <= i < Size(t) && i != position ==> Get(r, i) == Get(t, i)
  {
    Replace(ConcatAll(t, con), position, s)
  }

  /** The consecutive positions start, start+1, ..., end-1. */
  function Range(start: nat, end: nat): (r: seq<int>)
    requires start <= end
    ensures |r| == end - start && forall i :: 0 <= i < |r| ==> r[i] == start + i
    decreases end - start
  {
    if start == end then [] else [start] + Range(start + 1, end)
  }

  /** Projecting a range is projecting its positions one by one. */
  lemma ProjectRangeIsProject(t: Tuple, start: nat, end: nat)
    requires start <= end <= Size(t)
    ensures ValidPositions(t, Range(start, end))
    ensures ProjectRange(t, start, end) == Project(t, Range(start, end))
  {
    var a, b := ProjectRange(t, start, end), Project(t, Range(start, end));
    assert forall i :: 0 <= i < |a.slots| ==> a.slots[i] == Get(a, i) == Get(b, i) == b.slots[i];
    assert a.slots == b.slots;
  }

  /** Appending and projecting the old width back gives the tuple back; the new slot holds s. */
  lemma ConcatProjectRoundTrip(t: Tuple, s: Sequence)
    ensures ProjectRange(Concat(t, s), 0, Size(t)) == t
    ensures Get(Concat(t, s), Size(t)) == s
  {
    assert ProjectRange(Concat(t, s), 0, Size(t)).slots == t.slots;
  }

  /** concat(s[]) is a run of single concats. */
  lemma {:induction false} ConcatAllIsConcats(t: Tuple, s: seq<Sequence>)
    ensures s != [] ==> ConcatAll(t, s) == ConcatAll(Concat(t, s[0]), s[1..])
    ensures s == [] ==> ConcatAll(t, s) == t
  {
    if s != [] {
      assert t.slots + s == (t.slots + [s[0]]) + s[1..];
    } else {
      assert t.slots + s == t.slots;
    }
  }

  /** Replacing a slot by what it already holds changes nothing; a later replace wins. */
  lemma ReplaceLaws(t: Tuple, position: nat, s1: Sequence, s2: Sequence)
    requires position < Size(t)
    ensures Replace(t, position, Get(t, position)) == t
    ensures Replace(Replace(t, position, s1), position, s2) == Replace(t, position, s2)
  {
    assert Replace(t, position, Get(t, position)).slots == t.slots;
  }
}
