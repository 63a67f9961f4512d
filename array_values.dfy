// bit:array-values: the values of a JSON array, one by one, where a value
// that is a flattening sequence stands for its items.

module ArrayValues {
  import opened Base
  import opened Jdm

  /** item.evaluateToItem(ctx, new TupleImpl()). */
  type ItemEval = Item -> Item

  /** A value the iterator hands out: an item, or a flattening sequence of
    * items. (A null value ends the iteration early; any other value fails the
    * cast to Item.) */
  predicate WellFormed(v: Sequence)
  {
    v.ItemValue? || (v.Stream? && v.flattening)
  }

  predicate AllWellFormed(vs: seq<Sequence>)
  {
    forall k :: 0 <= k < |vs| ==> WellFormed(vs[k])
  }

  /** The items a value stands for. */
  function ValueItems(v: Sequence, eval: ItemEval): seq<Item>
  {
    match v
    case ItemValue(i) => [i]
    case Stream(xs, true) => seq(|xs|, k requires 0 <= k < |xs| => eval(xs[k]))
    case _ => []
  }

  /** The items of the first n values, in array order. */
  function OutputUpTo(vs: seq<Sequence>, n: nat, eval: ItemEval): seq<Item>
    requires n <= |vs|
  {
    if n == 0 then [] else OutputUpTo(vs, n - 1, eval) + ValueItems(vs[n - 1], eval)
  }

  /** The items of all the values, in array order. */
  function Output(vs: seq<Sequence>, eval: ItemEval): seq<Item>
  {
    OutputUpTo(vs, |vs|, eval)
  }

  /** Every item of a well-formed array comes out once, in order: a value
    * stands for one item, a flattening value for as many as it has. */
  lemma {:induction false} OutputLength(vs: seq<Sequence>, eval: ItemEval)
    requires AllWellFormed(vs)
    ensures |Output(vs, eval)| == |ItemsOfValues(vs)|
    decreases |vs|
  {
    if vs != [] {
      OutputLength(vs[..|vs| - 1], eval);
      OutputUpToPrefix(vs, |vs| - 1, eval);
    }
  }

  /** The first n values produce what the prefix of length n produces. */
  lemma {:induction false} OutputUpToPrefix(vs: seq<Sequence>, n: nat, eval: ItemEval)
    requires n <= |vs|
    ensures OutputUpTo(vs, n, eval) == Output(vs[..n], eval)
  {
    if n > 0 {
      OutputUpToPrefix(vs, n - 1, eval);
      assert vs[..n][..n - 1] == vs[..n - 1];
      assert OutputUpTo(vs[..n], n - 1, eval) == OutputUpTo(vs[..n - 1], n - 1, eval) by {
        OutputUpToAgree(vs[..n], vs[..n - 1], n - 1, eval);
      }
    }
  }

  /** OutputUpTo looks only at the first n values. */
  lemma {:induction false} OutputUpToAgree(vs: seq<Sequence>, ws: seq<Sequence>, n: nat, eval: ItemEval)
    requires n <= |vs| && n <= |ws| && vs[..n] == ws[..n]
    ensures OutputUpTo(vs, n, eval) == OutputUpTo(ws, n, eval)
  {
    if n > 0 {
      assert vs[n - 1] == vs[..n][n - 1];
      assert vs[..n - 1] == ws[..n - 1] by {
        assert vs[..n - 1] == vs[..n][..n - 1];
        assert ws[..n - 1] == ws[..n][..n - 1];
      }
      OutputUpToAgree(vs, ws, n - 1, eval);
    }
  }

  /** Taking value k appends its items to what the first k produced. */
  lemma OutputUpToStep(vs: seq<Sequence>, k: nat, eval: ItemEval, emitted: seq<Item>, deque: seq<Item>)
    requires k < |vs| && emitted == OutputUpTo(vs, k, eval) && deque == ValueItems(vs[k], eval)
    ensures emitted + deque == OutputUpTo(vs, k + 1, eval)
  {
  }

  /** The items of the values, before evaluation. */
  function ItemsOfValues(vs: seq<Sequence>): seq<Item>
    decreases |vs|
  {
    if vs == [] then [] else ItemsOfValues(vs[..|vs| - 1]) + Items(vs[|vs| - 1])
  }

  lemma PrefixOfExtended<T>(a: seq<T>, b: seq<T>, whole: seq<T>)
    requires a + b <= whole
    ensures a <= whole
  {
    assert whole[..|a|] == (a + b)[..|a|];
  }

  lemma NextOfPrefix<T>(done: seq<T>, rest: seq<T>, whole: seq<T>)
    requires done + rest <= whole && rest != []
    ensures |done| < |whole| && whole[|done|] == rest[0]
  {
    assert (done + rest)[|done|] == rest[0];
  }

  /** The iterator bit:array-values returns for one iterate(). */
  class ArrayValuesIter {
    /** What array.values() returns. */
    const vals: seq<Sequence>
    const eval: ItemEval
    /** The values list, fetched on the first next (None before). */
    var sequences: Option<seq<Sequence>>
    var deque: seq<Item>
    var index: nat
    /** The items returned so far. */
    ghost var emitted: seq<Item>

    ghost predicate Valid()
      reads this
    {
      (sequences.None? ==> index == 0 && deque == [] && emitted == []) &&
      (sequences.Some? ==>
         sequences.value == vals && index <= |vals| &&
         emitted + deque == OutputUpTo(vals, index, eval))
    }

    constructor (vals: seq<Sequence>, eval: ItemEval)
      ensures Valid() && this.vals == vals && this.eval == eval && sequences.None? && emitted == []
    {
      this.vals := vals;
      this.eval := eval;
      sequences := None;
      deque := [];
      index := 0;
      emitted := [];
    }

    /** The flattening loop: the evaluated items go to the back of the deque. */
    method Fill(xs: seq<Item>)
      modifies this`deque
      ensures deque == old(deque) + seq(|xs|, k requires 0 <= k < |xs| => eval(xs[k]))
    {
      for q := 0 to |xs|
        invariant deque == old(deque) + seq(q, k requires 0 <= k < q => eval(xs[k]))
      {
        deque := deque + [eval(xs[q])];
      }
    }

    /** removeFirst on a non-empty deque: the next item of the output. */
    method Pop() returns (x: Item)
      requires Valid() && sequences.Some? && deque != [] && AllWellFormed(vals)
      modifies this`deque, this`emitted
      ensures Valid() && deque == old(deque)[1..] && emitted == old(emitted) + [x]
      ensures |old(emitted)| < |Output(vals, eval)| && x == Output(vals, eval)[|old(emitted)|]
    {
      PrefixOfOutput(index);
      NextOfPrefix(emitted, deque, Output(vals, eval));
      x := deque[0];
      assert [x] + deque[1..] == deque;
      assert (emitted + [x]) + deque[1..] == emitted + deque;
      emitted := emitted + [x];
      deque := deque[1..];
    }

    /** Takes the value at index: an item is returned as it is; the items of
      * a flattening value go to the deque and the first is removed, None
      * when there is none. */
    method Take() returns (x: Option<Item>)
      requires Valid() && sequences.Some? && deque == [] && index < |vals| && AllWellFormed(vals)
      modifies this`deque, this`index, this`emitted
      ensures Valid() && index == old(index) + 1
      ensures x.None? <==> vals[old(index)].Stream? && vals[old(index)].items == []
      ensures x.None? ==> emitted == old(emitted) && deque == []
      ensures x.Some? ==> |old(emitted)| < |Output(vals, eval)| &&
                          x.value == Output(vals, eval)[|old(emitted)|] && emitted == old(emitted) + [x.value]
    {
      var v := vals[index];
      assert WellFormed(v);
      if v.Stream? {
        Fill(v.items);
      } else {
        deque := [v.item];
      }
      assert deque == ValueItems(v, eval);
      OutputUpToStep(vals, index, eval, emitted, deque);
      index := index + 1;
      assert Valid();
      if deque == [] {
        return None;
      }
      var y := Pop();
      x := Some(y);
    }

    /** Once every value is taken and the deque is empty, all is emitted. */
    lemma AllEmitted()
      requires Valid() && sequences.Some? && deque == [] && index == |vals|
      ensures emitted == Output(vals, eval)
    {
    }

    /** next as the source has it. A value is taken only when the deque is
      * empty; an empty flattening value leaves nothing to take from the
      * deque, and removeFirst fails. */
    method NextAsWritten() returns (r: Result<Option<Item>>)
      requires Valid() && AllWellFormed(vals)
      modifies this
      ensures sequences == Some(vals)
      ensures r.Ok? ==> Valid()
      ensures var out := Output(vals, eval);
              (r.Ok? && r.value.Some? ==>
                 |old(emitted)| < |out| && r.value.value == out[|old(emitted)|] && emitted == old(emitted) + [r.value.value]) &&
              (r.Ok? && r.value.None? ==> old(emitted) == out && emitted == out)
      ensures r.Err? <==> old(deque) == [] && old(index) < |vals| &&
                          vals[old(index)].Stream? && vals[old(index)].items == []
      ensures r.Err? ==> r.error == NoSuchElement
    {
      if sequences.None? {
        sequences := Some(vals);
      } else if deque != [] {
        var y := Pop();
        return Ok(Some(y));
      }
      if index < |sequences.value| {
        var x := Take();
        if x.None? {
          return Err(NoSuchElement);
        }
        return Ok(x);
      }
      AllEmitted();
      r := Ok(None);
    }

    /** next as evidently intended: an empty flattening value is passed over
      * and the next value is taken. */
    method Next() returns (r: Result<Option<Item>>)
      requires Valid() && AllWellFormed(vals)
      modifies this
      ensures sequences == Some(vals)
      ensures r.Ok? && Valid()
      ensures var out := Output(vals, eval);
              (|old(emitted)| < |out| ==> r.value == Some(out[|old(emitted)|]) && emitted == old(emitted) + [out[|old(emitted)|]]) &&
              (|old(emitted)| >= |out| ==> r.value == None && emitted == old(emitted))
    {
      if sequences.None? {
        sequences := Some(vals);
      } else if deque != [] {
        var y := Pop();
        return Ok(Some(y));
      }
      while index < |sequences.value|
        invariant Valid() && sequences.Some? && deque == [] && emitted == old(emitted)
        decreases |vals| - index
      {
        var x := Take();
        if x.Some? {
          return Ok(x);
        }
      }
      AllEmitted();
      r := Ok(None);
    }

    /** What has been produced so far is a prefix of the whole output. */
    lemma {:induction false} PrefixOfOutput(k: nat)
      requires k <= |vals|
      ensures OutputUpTo(vals, k, eval) <= Output(vals, eval)
      decreases |vals| - k
    {
      if k < |vals| {
        PrefixOfOutput(k + 1);
        PrefixOfExtended(OutputUpTo(vals, k, eval), ValueItems(vals[k], eval), Output(vals, eval));
      }
    }
  }

  /** bit:array-values: a null array gives the empty sequence (null); any
    * other array the lazy sequence whose iterator hands out Output. */
  function Execute(arr: Option<seq<Sequence>>, eval: ItemEval): (r: Sequence)
    ensures arr.None? ==> r == Null
    ensures arr.Some? ==> Items(r) == Output(arr.value, eval)
  {
    if arr.None? then Null else Stream(Output(arr.value, eval), false)
  }

  /** The first next of an array whose first value is an empty flattening
    * sequence fails, though the array has a value to hand out. */
  method EmptyFlatteningCounterexample(x: Item, eval: ItemEval) returns (asWritten: Result<Option<Item>>, corrected: Result<Option<Item>>)
    ensures asWritten == Err(NoSuchElement)
    ensures corrected == Ok(Some(x))
  {
    var vals := [Stream([], true), ItemValue(x)];
    assert ValueItems(vals[0], eval) == [];
    assert OutputUpTo(vals, 1, eval) == [];
    assert Output(vals, eval) == [x];
    var it1 := new ArrayValuesIter(vals, eval);
    asWritten := it1.NextAsWritten();
    var it2 := new ArrayValuesIter(vals, eval);
    corrected := it2.Next();
  }
}
