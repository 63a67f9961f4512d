// jn:keys: the distinct field names of the objects in a sequence, each
// string once, in the order first seen, through a lazily opened iterator.

module Keys {
  import opened Base
  import opened Jdm

  /** name.atomize().stringValue(). */
  type StringValue = Item -> string

  /** The field names of the objects among the items, in order; other items
    * contribute nothing. */
  function AllNames(items: seq<Item>): seq<Item>
    decreases |items|
  {
    if items == [] then []
    else
      var last := items[|items| - 1];
      AllNames(items[..|items| - 1]) + (if last.ObjectItem? then last.fieldNames else [])
  }

  /** The strings of the names. */
  function Seen(names: seq<Item>, sv: StringValue): set<string>
  {
    set k | 0 <= k < |names| :: sv(names[k])
  }

  /** The names kept: a name is kept when no earlier name has its string. */
  function Distinct(names: seq<Item>, sv: StringValue): seq<Item>
    decreases |names|
  {
    if names == [] then []
    else
      var init := names[..|names| - 1];
      var last := names[|names| - 1];
      Distinct(init, sv) + (if sv(last) in Seen(init, sv) then [] else [last])
  }

  /** Position k holds the first name with its string. */
  ghost predicate IsFirst(names: seq<Item>, sv: StringValue, k: int)
  {
    0 <= k < |names| && forall j :: 0 <= j < k ==> sv(names[j]) != sv(names[k])
  }

  /** The positions of the names kept, in order. */
  function FirstPositions(names: seq<Item>, sv: StringValue): (r: seq<nat>)
    ensures |r| == |Distinct(names, sv)|
    ensures forall j :: 0 <= j < |r| ==> r[j] < |names|
    decreases |names|
  {
    if names == [] then []
    else
      var init := names[..|names| - 1];
      FirstPositions(init, sv) + (if sv(names[|names| - 1]) in Seen(init, sv) then [] else [|names| - 1])
  }

  /** Each kept name is the name at its position, and that position is the
    * first with its string. */
  ghost predicate KeptAreFirsts(names: seq<Item>, sv: StringValue)
  {
    forall j :: 0 <= j < |Distinct(names, sv)| ==>
      Distinct(names, sv)[j] == names[FirstPositions(names, sv)[j]] &&
      IsFirst(names, sv, FirstPositions(names, sv)[j])
  }

  ghost predicate Increasing(p: seq<nat>)
  {
    forall j1, j2 :: 0 <= j1 < j2 < |p| ==> p[j1] < p[j2]
  }

  /** Every first position of a string is kept. */
  ghost predicate FirstsKept(names: seq<Item>, sv: StringValue)
  {
    forall k :: IsFirst(names, sv, k) ==> k in FirstPositions(names, sv)
  }

  /** The result of keys, exactly: the names at the first position of each
    * string, in increasing position order, so each string once and in the
    * order first seen. */
  lemma {:induction false} DistinctIsFirstOccurrences(names: seq<Item>, sv: StringValue)
    ensures forall j :: 0 <= j < |Distinct(names, sv)| ==>
              Distinct(names, sv)[j] == names[FirstPositions(names, sv)[j]] &&
              IsFirst(names, sv, FirstPositions(names, sv)[j])
    ensures forall j1, j2 :: 0 <= j1 < j2 < |FirstPositions(names, sv)| ==>
              FirstPositions(names, sv)[j1] < FirstPositions(names, sv)[j2]
    ensures forall k :: IsFirst(names, sv, k) ==> k in FirstPositions(names, sv)
    decreases |names|
  {
    if names != [] {
      DistinctIsFirstOccurrences(names[..|names| - 1], sv);
      KeptAreFirstsStep(names, sv);
      IncreasingStep(names, sv);
      FirstsKeptStep(names, sv);
    }
    assert KeptAreFirsts(names, sv);
    assert Increasing(FirstPositions(names, sv));
    assert FirstsKept(names, sv);
  }

  /** A name whose string was not seen before differs in string from every earlier name. */
  lemma NewStringDiffers(names: seq<Item>, sv: StringValue)
    requires names != [] && sv(names[|names| - 1]) !in Seen(names[..|names| - 1], sv)
    ensures forall j :: 0 <= j < |names| - 1 ==> sv(names[j]) != sv(names[|names| - 1])
  {
    var n := |names| - 1;
    forall j | 0 <= j < n
      ensures sv(names[j]) != sv(names[n])
    {
      assert names[..n][j] == names[j];
    }
  }

  lemma KeptAreFirstsStep(names: seq<Item>, sv: StringValue)
    requires names != [] && KeptAreFirsts(names[..|names| - 1], sv)
    ensures KeptAreFirsts(names, sv)
  {
    var n := |names| - 1;
    var init := names[..n];
    var d0, p0 := Distinct(init, sv), FirstPositions(init, sv);
    var d, p := Distinct(names, sv), FirstPositions(names, sv);
    assert forall k :: 0 <= k < n ==> init[k] == names[k];
    if sv(names[n]) in Seen(init, sv) {
      assert d == d0 && p == p0;
      forall j | 0 <= j < |d|
        ensures d[j] == names[p[j]] && IsFirst(names, sv, p[j])
      {
        assert IsFirst(init, sv, p0[j]);
      }
    } else {
      assert d == d0 + [names[n]] && p == p0 + [n];
      NewStringDiffers(names, sv);
      forall j | 0 <= j < |d|
        ensures d[j] == names[p[j]] && IsFirst(names, sv, p[j])
      {
        if j < |d0| {
          assert IsFirst(init, sv, p0[j]);
        }
      }
    }
  }

  lemma IncreasingStep(names: seq<Item>, sv: StringValue)
    requires names != [] && Increasing(FirstPositions(names[..|names| - 1], sv))
    ensures Increasing(FirstPositions(names, sv))
  {
    var n := |names| - 1;
    var init := names[..n];
    var p0 := FirstPositions(init, sv);
    var p := FirstPositions(names, sv);
    if sv(names[n]) in Seen(init, sv) {
      assert p == p0;
    } else {
      assert p == p0 + [n];
      IncreasingSnoc(p0, n);
    }
  }

  lemma IncreasingSnoc(p: seq<nat>, n: nat)
    requires Increasing(p) && forall j :: 0 <= j < |p| ==> p[j] < n
    ensures Increasing(p + [n])
  {
    var q := p + [n];
    forall j1, j2 | 0 <= j1 < j2 < |q|
      ensures q[j1] < q[j2]
    {
      if j2 < |p| {
        assert q[j1] == p[j1] && q[j2] == p[j2];
      }
    }
  }

  lemma FirstsKeptStep(names: seq<Item>, sv: StringValue)
    requires names != [] && FirstsKept(names[..|names| - 1], sv)
    ensures FirstsKept(names, sv)
  {
    var n := |names| - 1;
    var init := names[..n];
    assert forall k :: 0 <= k < n ==> init[k] == names[k];
    forall k | IsFirst(names, sv, k)
      ensures k in FirstPositions(names, sv)
    {
      if k < n {
        assert IsFirst(init, sv, k);
      } else {
        assert sv(names[n]) !in Seen(init, sv);
      }
    }
  }

  /** No two kept names have the same string, and every name's string is
    * among the kept ones. */
  lemma DistinctKeepsEachStringOnce(names: seq<Item>, sv: StringValue)
    ensures var d := Distinct(names, sv);
            (forall j1, j2 :: 0 <= j1 < j2 < |d| ==> sv(d[j1]) != sv(d[j2])) &&
            Seen(d, sv) == Seen(names, sv)
  {
    DistinctIsFirstOccurrences(names, sv);
    var d := Distinct(names, sv);
    var p := FirstPositions(names, sv);
    forall j1, j2 | 0 <= j1 < j2 < |d|
      ensures sv(d[j1]) != sv(d[j2])
    {
      assert IsFirst(names, sv, p[j2]);
    }
    forall s | s in Seen(names, sv)
      ensures s in Seen(d, sv)
    {
      var k :| 0 <= k < |names| && sv(names[k]) == s;
      var f := FirstOf(names, sv, k);
      assert f in p;
      var j :| 0 <= j < |p| && p[j] == f;
      assert sv(d[j]) == s;
    }
    forall s | s in Seen(d, sv)
      ensures s in Seen(names, sv)
    {
      var j :| 0 <= j < |d| && sv(d[j]) == s;
      assert sv(names[p[j]]) == s;
    }
  }

  /** The first position whose name has the same string as position k. */
  lemma {:induction false} FirstOfExists(names: seq<Item>, sv: StringValue, k: nat)
    requires k < |names|
    ensures exists f :: 0 <= f <= k && sv(names[f]) == sv(names[k]) && IsFirst(names, sv, f)
    decreases k
  {
    if !IsFirst(names, sv, k) {
      var j :| 0 <= j < k && sv(names[j]) == sv(names[k]);
      FirstOfExists(names, sv, j);
    }
  }

  ghost function FirstOf(names: seq<Item>, sv: StringValue, k: nat): (f: nat)
    requires k < |names|
    ensures f <= k && sv(names[f]) == sv(names[k]) && IsFirst(names, sv, f)
  {
    FirstOfExists(names, sv, k);
    var f :| 0 <= f <= k && sv(names[f]) == sv(names[k]) && IsFirst(names, sv, f);
    f
  }

  lemma DistinctSnoc(names: seq<Item>, x: Item, sv: StringValue)
    ensures Distinct(names + [x], sv) == Distinct(names, sv) + (if sv(x) in Seen(names, sv) then [] else [x])
    ensures Seen(names + [x], sv) == Seen(names, sv) + {sv(x)}
  {
    assert (names + [x])[..|names|] == names;
    forall s | s in Seen(names + [x], sv)
      ensures s in Seen(names, sv) + {sv(x)}
    {
      var k :| 0 <= k < |names + [x]| && sv((names + [x])[k]) == s;
      if k < |names| {
        assert (names + [x])[k] == names[k];
      }
    }
    forall s | s in Seen(names, sv)
      ensures s in Seen(names + [x], sv)
    {
      var k :| 0 <= k < |names| && sv(names[k]) == s;
      assert (names + [x])[k] == names[k];
    }
    assert sv((names + [x])[|names|]) == sv(x);
  }

  lemma AllNamesSnoc(items: seq<Item>, x: Item)
    ensures AllNames(items + [x]) == AllNames(items) + (if x.ObjectItem? then x.fieldNames else [])
  {
    assert (items + [x])[..|items|] == items;
  }

  /** One more item adds its field names when it is an object. */
  lemma AllNamesStep(xs: seq<Item>, k: nat)
    requires k < |xs|
    ensures AllNames(xs[..k + 1]) == AllNames(xs[..k]) + (if xs[k].ObjectItem? then xs[k].fieldNames else [])
  {
    assert xs[..k + 1] == xs[..k] + [xs[k]];
    AllNamesSnoc(xs[..k], xs[k]);
  }

  lemma PopKept(emitted: seq<Item>, keys: seq<Item>)
    requires keys != []
    ensures (emitted + [keys[0]]) + keys[1..] == emitted + keys
    ensures |emitted| < |emitted + keys| && (emitted + keys)[|emitted|] == keys[0]
  {
    assert [keys[0]] + keys[1..] == keys;
  }

  lemma AppendKept(emitted: seq<Item>, keys: seq<Item>, x: Item)
    ensures emitted + (keys + [x]) == (emitted + keys) + [x]
  {
  }

  lemma PrefixSnoc(before: seq<Item>, names: seq<Item>, q: nat)
    requires q < |names|
    ensures before + names[..q + 1] == (before + names[..q]) + [names[q]]
  {
    assert names[..q + 1] == names[..q] + [names[q]];
  }

  /** The iterator keys returns for one iterate() of its argument. */
  class KeysIter {
    const input: Sequence
    const sv: StringValue
    /** The argument's iterator, opened on the first next (null before). */
    var s: Iter?
    var stringKeys: set<string>
    var keys: seq<Item>
    /** The names returned so far. */
    ghost var emitted: seq<Item>

    ghost predicate Valid()
      reads this, s
    {
      (s == null ==> emitted == [] && keys == [] && stringKeys == {}) &&
      (s != null ==>
         s.Valid() && s.items == Items(input) && s.pos == |s.items| &&
         emitted + keys == Distinct(AllNames(s.items), sv) &&
         stringKeys == Seen(AllNames(s.items), sv))
    }

    constructor (input: Sequence, sv: StringValue)
      ensures Valid() && this.input == input && this.sv == sv && s == null && emitted == []
    {
      this.input := input;
      this.sv := sv;
      s := null;
      stringKeys := {};
      keys := [];
      emitted := [];
    }

    /** next: on the first call the argument is read to the end, collecting
      * the names; each call hands out the next collected name, then null. */
    method Next() returns (r: Option<Item>)
      requires Valid()
      modifies this, s
      ensures Valid() && s != null && (old(s) != null ==> s == old(s))
      ensures old(s) == null ==> fresh(s)
      ensures var d := Distinct(AllNames(Items(input)), sv);
              (|old(emitted)| < |d| ==> r == Some(d[|old(emitted)|]) && emitted == old(emitted) + [r.value]) &&
              (|old(emitted)| >= |d| ==> r == None && emitted == old(emitted))
    {
      if s == null {
        s := Iterate(input);
        assert Seen([], sv) == {};
        assert s.items[..0] == [];
      } else {
        assert s.items[..s.pos] == s.items;
      }
      Drain();
      if keys != [] {
        r := Some(keys[0]);
        PopKept(emitted, keys);
        keys := keys[1..];
        emitted := emitted + [r.value];
      } else {
        r := None;
      }
    }

    /** The loop of next: the argument's iterator is read to its end, the
      * names of each object collected. */
    method Drain()
      requires s != null && s.Valid() && s.items == Items(input)
      requires emitted + keys == Distinct(AllNames(s.items[..s.pos]), sv)
      requires stringKeys == Seen(AllNames(s.items[..s.pos]), sv)
      modifies s, this`keys, this`stringKeys
      ensures s.Valid() && s.pos == |s.items| && s.items == old(s.items)
      ensures emitted + keys == Distinct(AllNames(s.items), sv)
      ensures stringKeys == Seen(AllNames(s.items), sv)
    {
      ghost var xs := s.items;
      ghost var k := s.pos;
      ghost var acc := AllNames(xs[..k]);
      var item := s.Next();
      while item != None
        invariant s.Valid() && s.items == xs && k <= |xs|
        invariant item == None ==> k == |xs| && s.pos == k
        invariant item != None ==> k < |xs| && s.pos == k + 1 && item.value == xs[k]
        invariant acc == AllNames(xs[..k])
        invariant emitted + keys == Distinct(acc, sv) && stringKeys == Seen(acc, sv)
        decreases |xs| - k
      {
        AllNamesStep(xs, k);
        if item.value.ObjectItem? {
          AddNames(item.value.fieldNames, acc);
          acc := acc + item.value.fieldNames;
        }
        item := s.Next();
        k := k + 1;
      }
      assert xs[..k] == xs;
      assert acc == AllNames(xs);
    }

    /** The inner loop of next: each name whose string is new is collected. */
    method AddNames(names: seq<Item>, ghost before: seq<Item>)
      requires emitted + keys == Distinct(before, sv) && stringKeys == Seen(before, sv)
      modifies this`stringKeys, this`keys
      ensures emitted + keys == Distinct(before + names, sv) && stringKeys == Seen(before + names, sv)
    {
      ghost var pre := before;
      for q := 0 to |names|
        invariant pre == before + names[..q]
        invariant emitted + keys == Distinct(pre, sv)
        invariant stringKeys == Seen(pre, sv)
      {
        DistinctSnoc(pre, names[q], sv);
        var str := sv(names[q]);
        if str !in stringKeys {
          AppendKept(emitted, keys, names[q]);
          keys := keys + [names[q]];
        }
        stringKeys := stringKeys + {str};
        PrefixSnoc(before, names, q);
        pre := pre + [names[q]];
      }
      assert names[..|names|] == names;
    }

    /** close: the argument's iterator is closed, if it was ever opened. */
    method Close()
      requires Valid()
      modifies s
      ensures s != null ==> s.isClosed
    {
      if s != null {
        s.Close();
      }
    }
  }
}
