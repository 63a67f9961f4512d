// The grouping accumulator of group-by: the tuples of one group are fed,
// column by column, into one aggregator per output position; the grouping
// key of the current group is held to recognise where the group ends.

module Grouping {
  import opened Base
  import opened Jdm
  import opened Tuples
  import opened ExprUtil

  /** The aggregation of a position: SINGLE keeps the first value; the other
    * kinds (sequence concatenation, count, sum, ...) by code. */
  datatype Aggregate = Single | OtherAggregate(code: nat)

  /** A grouping key: one atomic per grouping position, None for Java null. */
  type Key = seq<Option<Atomic>>

  /** One key column: null for an empty column, the atomized item otherwise,
    * with an untyped-atomic value cast to xs:string; more than one item is a
    * type error (asItem). `atomize` is item.atomize(). */
  function KeyOf(s: Sequence, atomize: Item -> Atomic): (r: Result<Option<Atomic>>)
    ensures r == Ok(None) <==> Items(s) == []
    ensures r.Err? <==> |Items(s)| >= 2
    ensures r.Ok? && r.value.Some? ==> r.value.value.ty != UntypedAtomic
    ensures forall x :: Items(s) == [x] && atomize(x).ty == UntypedAtomic ==>
              r == Ok(Some(Atomic(StringType, atomize(x).lexical)))
    ensures forall x :: Items(s) == [x] && atomize(x).ty != UntypedAtomic ==> r == Ok(Some(atomize(x)))
  {
    match AsItemOf(s)
    case Err(e) => Err(e)
    case Ok(None) => Ok(None)
    case Ok(Some(i)) =>
      var a := atomize(i);
      Ok(Some(if a.ty == UntypedAtomic then Atomic(StringType, a.lexical) else a))
  }

  predicate PositionsIn(positions: seq<nat>, size: nat)
  {
    forall i :: 0 <= i < |positions| ==> positions[i] < size
  }

  /** groupingKeys: one entry per grouping position, in order; the first
    * column in error decides the error. */
  function KeysOf(positions: seq<nat>, t: Tuple, atomize: Item -> Atomic): (r: Result<Key>)
    requires PositionsIn(positions, Size(t))
    ensures r.Ok? <==> forall i :: 0 <= i < |positions| ==> KeyOf(Get(t, positions[i]), atomize).Ok?
    ensures r.Ok? ==> |r.value| == |positions| &&
                      forall i :: 0 <= i < |positions| ==> KeyOf(Get(t, positions[i]), atomize) == Ok(r.value[i])
    decreases |positions|
  {
    if positions == [] then Ok([])
    else
      var init := positions[..|positions| - 1];
      var prev := KeysOf(init, t, atomize);
      if prev.Err? then prev
      else
        var k := KeyOf(Get(t, positions[|positions| - 1]), atomize);
        if k.Err? then Err(k.error) else Ok(prev.value + [k.value])
  }

  /** An error is the error of the first column in error. */
  lemma {:induction false} KeysOfFirstError(positions: seq<nat>, t: Tuple, atomize: Item -> Atomic)
    requires PositionsIn(positions, Size(t)) && KeysOf(positions, t, atomize).Err?
    ensures exists i :: 0 <= i < |positions| && KeyOf(Get(t, positions[i]), atomize) == Err(KeysOf(positions, t, atomize).error) &&
                        forall j :: 0 <= j < i ==> KeyOf(Get(t, positions[j]), atomize).Ok?
    decreases |positions|
  {
    var init := positions[..|positions| - 1];
    assert forall j :: 0 <= j < |init| ==> init[j] == positions[j];
    if KeysOf(init, t, atomize).Err? {
      KeysOfFirstError(init, t, atomize);
      var i :| 0 <= i < |init| && KeyOf(Get(t, init[i]), atomize) == Err(KeysOf(init, t, atomize).error) &&
               forall j :: 0 <= j < i ==> KeyOf(Get(t, init[j]), atomize).Ok?;
      assert KeyOf(Get(t, positions[i]), atomize) == Err(KeysOf(positions, t, atomize).error);
    } else {
      var i := |positions| - 1;
      assert forall j :: 0 <= j < i ==> KeyOf(Get(t, positions[j]), atomize).Ok?;
    }
  }

  /** groupingKeys as the loop over the grouping positions. */
  method GroupingKeys(positions: seq<nat>, t: Tuple, atomize: Item -> Atomic) returns (r: Result<Key>)
    requires PositionsIn(positions, Size(t))
    ensures r == KeysOf(positions, t, atomize)
  {
    var gk := new Option<Atomic>[|positions|](_ => None);
    ghost var keys: Key := [];
    assert positions[..0] == [];
    for i := 0 to |positions|
      invariant KeysOf(positions[..i], t, atomize) == Ok(keys)
      invariant gk[..i] == keys
    {
      KeysOfStep(positions, i, t, atomize);
      var k := KeyOf(Get(t, positions[i]), atomize);
      if k.Err? {
        KeysOfErrPropagates(positions, i + 1, t, atomize);
        return Err(k.error);
      }
      gk[i] := k.value;
      keys := keys + [k.value];
      assert gk[..i + 1] == keys;
    }
    assert positions[..|positions|] == positions;
    assert gk[..] == gk[..|positions|];
    r := Ok(gk[..]);
  }

  /** One more grouping position adds its key, or its error. */
  lemma KeysOfStep(positions: seq<nat>, i: nat, t: Tuple, atomize: Item -> Atomic)
    requires i < |positions| && PositionsIn(positions, Size(t))
    requires KeysOf(positions[..i], t, atomize).Ok?
    ensures var k := KeyOf(Get(t, positions[i]), atomize);
            KeysOf(positions[..i + 1], t, atomize) ==
              if k.Err? then Err(k.error) else Ok(KeysOf(positions[..i], t, atomize).value + [k.value])
  {
    assert positions[..i + 1][..i] == positions[..i];
  }

  /** An error in the first n positions is the error of all of them. */
  lemma {:induction false} KeysOfErrPropagates(positions: seq<nat>, n: nat, t: Tuple, atomize: Item -> Atomic)
    requires n <= |positions| && PositionsIn(positions, Size(t))
    requires KeysOf(positions[..n], t, atomize).Err?
    ensures KeysOf(positions, t, atomize) == KeysOf(positions[..n], t, atomize)
    decreases |positions| - n
  {
    if n < |positions| {
      assert positions[..n + 1][..n] == positions[..n];
      KeysOfErrPropagates(positions, n + 1, t, atomize);
    } else {
      assert positions[..n] == positions;
    }
  }

  /** cmp: at every grouping position both keys are null, or both are
    * present and compare equal. `atomicCmp` is atomicCmp. */
  predicate KeysMatch(n: nat, gk1: Key, gk2: Key, atomicCmp: (Atomic, Atomic) -> int)
    requires n <= |gk1| && n <= |gk2|
  {
    forall i :: 0 <= i < n ==>
      (gk1[i].None? && gk2[i].None?) ||
      (gk1[i].Some? && gk2[i].Some? && atomicCmp(gk1[i].value, gk2[i].value) == 0)
  }

  /** cmp as the loop over the grouping positions. */
  method Cmp(n: nat, gk1: Key, gk2: Key, atomicCmp: (Atomic, Atomic) -> int) returns (r: bool)
    requires n <= |gk1| && n <= |gk2|
    ensures r == KeysMatch(n, gk1, gk2, atomicCmp)
  {
    for i := 0 to n
      invariant KeysMatch(i, gk1, gk2, atomicCmp)
    {
      if gk1[i].None? {
        if gk2[i].Some? {
          return false;
        }
      } else if gk2[i].None? || atomicCmp(gk1[i].value, gk2[i].value) != 0 {
        return false;
      }
    }
    r := true;
  }

  /** The aggregation of position pos after init(n). */
  function SpecAt(pos: nat, n: nat, groupSpecs: seq<nat>, defaultAgg: Aggregate, additional: seq<Aggregate>): Aggregate
    requires pos < n + |additional|
  {
    if pos < n then (if pos in groupSpecs then Single else defaultAgg) else additional[pos - n]
  }

  /** Whether position pos is fed only the group's first tuple after init(n). */
  predicate OnlyFirstAt(pos: nat, n: nat, groupSpecs: seq<nat>, defaultAgg: Aggregate, additional: seq<Aggregate>)
    requires pos < n + |additional|
  {
    if pos < n then pos in groupSpecs || defaultAgg == Single else additional[pos - n] == Single
  }

  /** A position is fed only once per group exactly when it is a SINGLE
    * aggregation: grouping positions, the input positions under a SINGLE
    * default, and SINGLE additional aggregates. */
  lemma OnlyFirstIffSingle(pos: nat, n: nat, groupSpecs: seq<nat>, defaultAgg: Aggregate, additional: seq<Aggregate>)
    requires pos < n + |additional|
    ensures OnlyFirstAt(pos, n, groupSpecs, defaultAgg, additional) <==> SpecAt(pos, n, groupSpecs, defaultAgg, additional) == Single
  {
  }

  /** The aggregation loops of init(n): the default for the input positions,
    * SINGLE for the grouping positions, the additional aggregates after. */
  method LayoutSpecs(n: nat, groupSpecs: seq<nat>, defaultAgg: Aggregate, additional: seq<Aggregate>)
      returns (specs: array<Aggregate>)
    requires PositionsIn(groupSpecs, n)
    ensures fresh(specs) && specs.Length == n + |additional|
    ensures forall pos :: 0 <= pos < specs.Length ==> specs[pos] == SpecAt(pos, n, groupSpecs, defaultAgg, additional)
  {
    var len := n + |additional|;
    specs := new Aggregate[len](_ => Single);
    for pos := 0 to n
      invariant forall j :: 0 <= j < pos ==> specs[j] == defaultAgg
    {
      specs[pos] := defaultAgg;
    }
    for k := 0 to |groupSpecs|
      invariant forall j :: 0 <= j < n ==> specs[j] == if j in groupSpecs[..k] then Single else defaultAgg
    {
      assert groupSpecs[..k + 1] == groupSpecs[..k] + [groupSpecs[k]];
      specs[groupSpecs[k]] := Single;
    }
    assert groupSpecs[..|groupSpecs|] == groupSpecs;
    for pos := n to len
      invariant forall j :: 0 <= j < n ==> specs[j] == if j in groupSpecs then Single else defaultAgg
      invariant forall j :: n <= j < pos ==> specs[j] == additional[j - n]
    {
      specs[pos] := additional[pos - n];
    }
  }

  /** The onlyFirst loops of init(n): all input positions under a SINGLE
    * default, every grouping position, and each SINGLE additional aggregate. */
  method LayoutOnlyFirst(n: nat, groupSpecs: seq<nat>, defaultAgg: Aggregate, additional: seq<Aggregate>)
      returns (first: array<bool>)
    requires PositionsIn(groupSpecs, n)
    ensures fresh(first) && first.Length == n + |additional|
    ensures forall pos :: 0 <= pos < first.Length ==> first[pos] == OnlyFirstAt(pos, n, groupSpecs, defaultAgg, additional)
  {
    var len := n + |additional|;
    first := new bool[len](_ => false);
    if defaultAgg == Single {
      for pos := 0 to n
        invariant forall j :: 0 <= j < pos ==> first[j]
        invariant forall j :: pos <= j < len ==> !first[j]
      {
        first[pos] := true;
      }
    }
    for k := 0 to |groupSpecs|
      invariant forall j :: 0 <= j < n ==> first[j] == (j in groupSpecs[..k] || defaultAgg == Single)
      invariant forall j :: n <= j < len ==> !first[j]
    {
      assert groupSpecs[..k + 1] == groupSpecs[..k] + [groupSpecs[k]];
      first[groupSpecs[k]] := true;
    }
    assert groupSpecs[..|groupSpecs|] == groupSpecs;
    for pos := n to len
      invariant forall j :: 0 <= j < n ==> first[j] == (j in groupSpecs || defaultAgg == Single)
      invariant forall j :: n <= j < pos ==> first[j] == (additional[j - n] == Single)
    {
      first[pos] := additional[pos - n] == Single;
    }
  }

  class Grouping {
    const groupSpecs: seq<nat>
    const addAggsSpecs: seq<nat>
    const defaultAgg: Aggregate
    const additionalAggs: seq<Aggregate>
    const atomize: Item -> Atomic
    const atomicCmp: (Atomic, Atomic) -> int

    /** The input tuple width; -1 until init. */
    var tupleSize: int
    var aggSpecs: array<Aggregate>
    var onlyFirst: array<bool>
    /** Each aggregator, seen as the sequences fed to it since it was last cleared. */
    var aggs: array<seq<Sequence>>
    /** The key of the current group; None (Java null) before the first add. */
    var gk: Option<Key>
    var size: nat

    /** Before init there are no aggregators (the arrays are empty); after
      * init(n) the positions are laid out as SpecAt and OnlyFirstAt say. */
    ghost predicate Valid()
      reads this, aggSpecs, onlyFirst
    {
      |addAggsSpecs| == |additionalAggs| && tupleSize >= -1 &&
      (gk.Some? ==> |gk.value| >= |groupSpecs|) &&
      (tupleSize == -1 ==>
         aggSpecs.Length == 0 && onlyFirst.Length == 0 && aggs.Length == 0 && gk.None? && size == 0) &&
      (tupleSize >= 0 ==>
         PositionsIn(groupSpecs, tupleSize) &&
         aggSpecs.Length == onlyFirst.Length == aggs.Length == tupleSize + |additionalAggs| &&
         (forall pos :: 0 <= pos < aggSpecs.Length ==>
            aggSpecs[pos] == SpecAt(pos, tupleSize, groupSpecs, defaultAgg, additionalAggs)) &&
         (forall pos :: 0 <= pos < onlyFirst.Length ==>
            onlyFirst[pos] == OnlyFirstAt(pos, tupleSize, groupSpecs, defaultAgg, additionalAggs)))
    }

    /** The four-argument constructor: nothing is laid out yet. */
    constructor (groupSpecs: seq<nat>, addAggsSpecs: seq<nat>, defaultAgg: Aggregate, additionalAggs: seq<Aggregate>,
                 atomize: Item -> Atomic, atomicCmp: (Atomic, Atomic) -> int)
      requires |addAggsSpecs| == |additionalAggs|
      ensures Valid() && tupleSize == -1 && gk.None? && size == 0
      ensures this.groupSpecs == groupSpecs && this.addAggsSpecs == addAggsSpecs
      ensures this.defaultAgg == defaultAgg && this.additionalAggs == additionalAggs
    {
      this.groupSpecs := groupSpecs;
      this.addAggsSpecs := addAggsSpecs;
      this.defaultAgg := defaultAgg;
      this.additionalAggs := additionalAggs;
      this.atomize := atomize;
      this.atomicCmp := atomicCmp;
      tupleSize := -1;
      aggSpecs := new Aggregate[0];
      onlyFirst := new bool[0];
      aggs := new seq<Sequence>[0];
      gk := None;
      size := 0;
    }

    /** The five-argument constructor lays the positions out at once. */
    constructor WithSize(groupSpecs: seq<nat>, addAggsSpecs: seq<nat>, defaultAgg: Aggregate, additionalAggs: seq<Aggregate>,
                         atomize: Item -> Atomic, atomicCmp: (Atomic, Atomic) -> int, n: nat)
      requires |addAggsSpecs| == |additionalAggs| && PositionsIn(groupSpecs, n)
      ensures Valid() && tupleSize == n && gk.None? && size == 0
      ensures this.groupSpecs == groupSpecs && this.addAggsSpecs == addAggsSpecs
      ensures this.defaultAgg == defaultAgg && this.additionalAggs == additionalAggs
      ensures forall i :: 0 <= i < aggs.Length ==> aggs[i] == []
    {
      this.groupSpecs := groupSpecs;
      this.addAggsSpecs := addAggsSpecs;
      this.defaultAgg := defaultAgg;
      this.additionalAggs := additionalAggs;
      this.atomize := atomize;
      this.atomicCmp := atomicCmp;
      tupleSize := -1;
      aggSpecs := new Aggregate[0];
      onlyFirst := new bool[0];
      aggs := new seq<Sequence>[0];
      gk := None;
      size := 0;
      new;
      Init(n);
    }

    /** init(n): takes effect only once. It makes n + |additionalAggs|
      * positions: the input positions take the default aggregation, the
      * grouping positions SINGLE, the extra positions their own aggregate;
      * every aggregator starts empty. */
    method Init(n: nat)
      requires Valid() && (tupleSize == -1 ==> PositionsIn(groupSpecs, n))
      modifies this
      ensures Valid()
      ensures old(tupleSize) != -1 ==> unchanged(this)
      ensures old(tupleSize) == -1 ==>
                tupleSize == n && fresh(aggs) && aggs.Length == n + |additionalAggs| &&
                (forall i :: 0 <= i < aggs.Length ==> aggs[i] == []) &&
                size == 0 && gk == old(gk)
    {
      if tupleSize != -1 {
        return;
      }
      var specs := LayoutSpecs(n, groupSpecs, defaultAgg, additionalAggs);
      var first := LayoutOnlyFirst(n, groupSpecs, defaultAgg, additionalAggs);
      var len := n + |additionalAggs|;
      aggSpecs := specs;
      onlyFirst := first;
      aggs := new seq<Sequence>[len](_ => []);
      size := 0;
      tupleSize := n;
    }

    function GetSize(): (r: nat)
      reads this
      ensures r == size
    {
      size
    }

    /** clear: every aggregator is emptied and the group size reset; the held
      * key stays. */
    method Clear()
      requires Valid() && tupleSize != -1
      modifies this`size, aggs
      ensures Valid() && size == 0 && gk == old(gk)
      ensures forall i :: 0 <= i < aggs.Length ==> aggs[i] == []
    {
      for i := 0 to aggSpecs.Length
        modifies aggs
        invariant forall j :: 0 <= j < i ==> aggs[j] == []
      {
        aggs[i] := [];
      }
      size := 0;
    }

    /** The column of t that feeds aggregator i: the input position itself,
      * or for an extra position the tuple position addAggsSpecs names. */
    function Column(i: nat, t: Tuple): Sequence
      requires Valid() && tupleSize >= 0 && i < aggs.Length
      requires tupleSize <= Size(t) && PositionsIn(addAggsSpecs, Size(t))
      reads this, aggSpecs, onlyFirst
    {
      if i < tupleSize then Get(t, i) else Get(t, addAggsSpecs[i - tupleSize])
    }

    /** What one tuple feeds aggregator i when the group already holds
      * prevSize tuples: nothing for a null column, nothing for a SINGLE
      * position after the group's first tuple, the column otherwise. */
    function Feed(i: nat, prevSize: nat, t: Tuple): seq<Sequence>
      requires Valid() && tupleSize >= 0 && i < aggs.Length
      requires tupleSize <= Size(t) && PositionsIn(addAggsSpecs, Size(t))
      reads this, aggSpecs, onlyFirst
    {
      if (prevSize > 0 && onlyFirst[i]) || Column(i, t) == Null then [] else [Column(i, t)]
    }

    /** Every aggregator holds what it held before plus what t feeds it. */
    ghost predicate FedBy(before: seq<seq<Sequence>>, prevSize: nat, t: Tuple)
      requires Valid() && tupleSize >= 0
      requires tupleSize <= Size(t) && PositionsIn(addAggsSpecs, Size(t))
      reads this, aggSpecs, onlyFirst, aggs
    {
      |before| == aggs.Length &&
      forall i :: 0 <= i < aggs.Length ==> aggs[i] == before[i] + Feed(i, prevSize, t)
    }

    /** addInternal: the input positions, then the extra positions, are fed
      * from t, and the group grows by one tuple. */
    method AddInternal(t: Tuple)
      requires Valid() && tupleSize >= 0
      requires tupleSize <= Size(t) && PositionsIn(addAggsSpecs, Size(t))
      modifies this`size, aggs
      ensures Valid() && size == old(size) + 1
      ensures FedBy(old(aggs[..]), old(size), t)
    {
      // The loops read the group size from before t; it grows by one.
      var prev := size;
      size := size + 1;
      FeedInputs(t, prev);
      FeedExtras(t, prev);
    }

    /** The first loop of addInternal: the input positions. */
    method FeedInputs(t: Tuple, prev: nat)
      requires Valid() && tupleSize >= 0
      requires tupleSize <= Size(t) && PositionsIn(addAggsSpecs, Size(t))
      modifies aggs
      ensures forall j :: 0 <= j < tupleSize ==> aggs[j] == old(aggs[j]) + Feed(j, prev, t)
      ensures forall j :: tupleSize <= j < aggs.Length ==> aggs[j] == old(aggs[j])
    {
      for i := 0 to tupleSize
        invariant forall j :: 0 <= j < i ==> aggs[j] == old(aggs[j]) + Feed(j, prev, t)
        invariant forall j :: i <= j < aggs.Length ==> aggs[j] == old(aggs[j])
      {
        if prev > 0 && onlyFirst[i] {
          continue;
        }
        var s := Get(t, i);
        if s == Null {
          continue;
        }
        aggs[i] := aggs[i] + [s];
      }
    }

    /** The second loop of addInternal: the extra positions. */
    method FeedExtras(t: Tuple, prev: nat)
      requires Valid() && tupleSize >= 0
      requires tupleSize <= Size(t) && PositionsIn(addAggsSpecs, Size(t))
      modifies aggs
      ensures forall j :: 0 <= j < tupleSize ==> aggs[j] == old(aggs[j])
      ensures forall j :: tupleSize <= j < aggs.Length ==> aggs[j] == old(aggs[j]) + Feed(j, prev, t)
    {
      for i := 0 to |addAggsSpecs|
        invariant forall j :: 0 <= j < tupleSize ==> aggs[j] == old(aggs[j])
        invariant forall j :: tupleSize <= j < tupleSize + i ==> aggs[j] == old(aggs[j]) + Feed(j, prev, t)
        invariant forall j :: tupleSize + i <= j < aggs.Length ==> aggs[j] == old(aggs[j])
      {
        if prev > 0 && onlyFirst[tupleSize + i] {
          continue;
        }
        var s := Get(t, addAggsSpecs[i]);
        if s == Null {
          continue;
        }
        aggs[tupleSize + i] := aggs[tupleSize + i] + [s];
      }
    }

    /** The tuple fits the grouping: every position it is read at exists. */
    predicate Fits(t: Tuple)
      reads this
    {
      PositionsIn(groupSpecs, Size(t)) && PositionsIn(addAggsSpecs, Size(t)) && tupleSize <= Size(t)
    }

    /** add(t): the held key is replaced by t's key before it is compared,
      * so a tuple of the next group leaves its key behind; only a tuple
      * whose key matches (or the first one) is fed. */
    method Add(t: Tuple) returns (r: Result<bool>)
      requires Valid() && Fits(t)
      modifies this, aggs
      ensures Valid() && tupleSize == (if old(tupleSize) == -1 then Size(t) else old(tupleSize))
      ensures r.Err? <==> KeysOf(groupSpecs, t, atomize).Err?
      ensures r.Err? ==> r.error == KeysOf(groupSpecs, t, atomize).error && gk == old(gk) && size == 0 + old(size)
      ensures r.Ok? ==> gk == Some(KeysOf(groupSpecs, t, atomize).value)
      ensures r == Ok(false) <==>
                r.Ok? && old(gk).Some? && !KeysMatch(|groupSpecs|, old(gk).value, gk.value, atomicCmp)
      ensures r == Ok(false) ==> size == old(size) && aggs == old(aggs) && aggs[..] == old(aggs[..])
      ensures r == Ok(true) ==>
                (size == (if old(tupleSize) == -1 then 0 else old(size)) + 1 &&
                 FedBy(if old(tupleSize) == -1 then seq(aggs.Length, _ => []) else old(aggs[..]),
                       if old(tupleSize) == -1 then 0 else old(size), t))
    {
      if tupleSize == -1 {
        Init(Size(t));
      }
      ghost var before := aggs[..];
      assert old(tupleSize) == -1 ==> before == seq(aggs.Length, _ => []);
      assert old(tupleSize) != -1 ==> before == old(aggs[..]);
      var pgk := gk;
      var keys := GroupingKeys(groupSpecs, t, atomize);
      if keys.Err? {
        return Err(keys.error);
      }
      gk := Some(keys.value);
      if pgk.Some? {
        var same := Cmp(|groupSpecs|, pgk.value, keys.value, atomicCmp);
        if !same {
          return Ok(false);
        }
      }
      AddInternal(t);
      r := Ok(true);
    }

    /** add(gk, t): with a key that does not match the held one nothing at
      * all changes; otherwise the key is held and t is fed. */
    method AddWithKey(key: Key, t: Tuple) returns (r: bool)
      requires Valid() && Fits(t) && |key| >= |groupSpecs|
      modifies this, aggs
      ensures Valid() && tupleSize == (if old(tupleSize) == -1 then Size(t) else old(tupleSize))
      ensures !r <==> old(gk).Some? && !KeysMatch(|groupSpecs|, old(gk).value, key, atomicCmp)
      ensures !r ==> unchanged(this) && unchanged(aggs)
      ensures r ==> (gk == Some(key) &&
                     size == (if old(tupleSize) == -1 then 0 else old(size)) + 1 &&
                     FedBy(if old(tupleSize) == -1 then seq(aggs.Length, _ => []) else old(aggs[..]),
                           if old(tupleSize) == -1 then 0 else old(size), t))
    {
      if tupleSize == -1 {
        Init(Size(t));
      }
      ghost var before := aggs[..];
      assert old(tupleSize) == -1 ==> before == seq(aggs.Length, _ => []);
      var pgk := gk;
      if pgk.Some? {
        var same := Cmp(|groupSpecs|, pgk.value, key, atomicCmp);
        if !same {
          return false;
        }
      }
      gk := Some(key);
      AddInternal(t);
      r := true;
    }

    /** emit: one slot per aggregator, each its aggregate.
      * `aggregateOf` is aggregator.getAggregate() for an aggregator of the
      * given kind fed the given sequences. */
    method Emit(aggregateOf: (Aggregate, seq<Sequence>) -> Sequence) returns (r: Tuple)
      requires Valid() && tupleSize != -1
      ensures Size(r) == aggs.Length == tupleSize + |additionalAggs|
      ensures forall i :: 0 <= i < aggs.Length ==> Get(r, i) == aggregateOf(aggSpecs[i], aggs[i])
    {
      var groupings := new Sequence[aggs.Length](_ => Null);
      for i := 0 to aggs.Length
        invariant forall j :: 0 <= j < i ==> groupings[j] == aggregateOf(aggSpecs[j], aggs[j])
      {
        groupings[i] := aggregateOf(aggSpecs[i], aggs[i]);
      }
      r := Tuple(groupings[..]);
    }

    /** singleEmit(t): t followed by the aggregate of each extra position. */
    method SingleEmit(t: Tuple, aggregateOf: (Aggregate, seq<Sequence>) -> Sequence) returns (r: Tuple)
      requires Valid() && (tupleSize == -1 ==> PositionsIn(groupSpecs, Size(t)))
      modifies this
      ensures Valid() && tupleSize >= 0
      ensures Size(r) == Size(t) + |additionalAggs|
      ensures forall i :: 0 <= i < Size(t) ==> Get(r, i) == Get(t, i)
      ensures forall i :: 0 <= i < |additionalAggs| ==>
                Get(r, Size(t) + i) == aggregateOf(additionalAggs[i], aggs[tupleSize + i])
    {
      if tupleSize == -1 {
        Init(Size(t));
      }
      var extra := Padding(aggregateOf);
      r := ConcatAll(t, extra);
    }

    /** The aggregates of the extra positions, in order. */
    method Padding(aggregateOf: (Aggregate, seq<Sequence>) -> Sequence) returns (extra: seq<Sequence>)
      requires Valid() && tupleSize >= 0
      ensures |extra| == |additionalAggs|
      ensures forall j :: 0 <= j < |additionalAggs| ==> extra[j] == aggregateOf(additionalAggs[j], aggs[tupleSize + j])
    {
      var padding := new Sequence[|additionalAggs|](_ => Null);
      for i := 0 to |additionalAggs|
        invariant forall j :: 0 <= j < i ==> padding[j] == aggregateOf(additionalAggs[j], aggs[tupleSize + j])
      {
        assert aggSpecs[tupleSize + i] == SpecAt(tupleSize + i, tupleSize, groupSpecs, defaultAgg, additionalAggs);
        padding[i] := aggregateOf(aggSpecs[tupleSize + i], aggs[tupleSize + i]);
      }
      extra := padding[..];
    }
  }
}
