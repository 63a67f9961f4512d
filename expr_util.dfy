// Cardinality helpers: a sequence as at most one item, and a sequence read
// once into memory. Both step the sequence's iterator and close it on every
// exit path.

module ExprUtil {
  import opened Base
  import opened Jdm

  /** What asItem yields: null for the empty sequence, the item for a
    * singleton, and a type error for two or more items. */
  function AsItemOf(s: Sequence): (r: Result<Option<Item>>)
    ensures r == Ok(None) <==> Items(s) == []
    ensures forall x :: r == Ok(Some(x)) <==> Items(s) == [x]
    ensures r.Err? <==> |Items(s)| >= 2
    ensures r.Err? ==> r.error == ErrTypeInappropriateType
  {
    match s
    case Null => Ok(None)
    case ItemValue(i) => Ok(Some(i))
    case _ =>
      var xs := Items(s);
      if xs == [] then Ok(None)
      else if |xs| == 1 then Ok(Some(xs[0]))
      else Err(ErrTypeInappropriateType)
  }

  /** asItem: null and items are returned as they are; otherwise at most two
    * steps of the iterator decide, and the iterator is closed afterwards. */
  method AsItem(s: Sequence) returns (r: Result<Option<Item>>, it: Iter?)
    ensures r == AsItemOf(s)
    ensures it == null <==> (s.Null? || s.ItemValue?)
    ensures it != null ==> fresh(it) && it.isClosed
  {
    if s.Null? {
      return Ok(None), null;
    } else if s.ItemValue? {
      return Ok(Some(s.item)), null;
    }
    it := Iterate(s);
    var item := it.Next();
    if item == None {
      r := Ok(None);
    } else {
      var second := it.Next();
      if second != None {
        r := Err(ErrTypeInappropriateType);
      } else {
        r := Ok(item);
      }
    }
    it.Close();
  }

  /** What materialize yields: null and items unchanged, null for no items,
    * the item for one, and an item sequence of all of them otherwise. */
  function MaterializedOf(s: Sequence): (r: Sequence)
    ensures Items(r) == Items(s)
    ensures (s.Null? || s.ItemValue?) ==> r == s
    ensures r.Null? <==> Items(s) == []
    ensures r.ItemValue? <==> |Items(s)| == 1
    ensures r.Stream? <==> |Items(s)| >= 2
  {
    match s
    case Null => s
    case ItemValue(_) => s
    case _ =>
      var xs := Items(s);
      if xs == [] then Null
      else if |xs| == 1 then ItemValue(xs[0])
      else Stream(xs, false)
  }

  /** materialize: the items after the first two are appended to a buffer in a
    * loop until the iterator is exhausted. */
  method Materialize(s: Sequence) returns (r: Sequence, it: Iter?)
    ensures r == MaterializedOf(s)
    ensures it == null <==> (s.Null? || s.ItemValue?)
    ensures it != null ==> fresh(it) && it.isClosed
  {
    if s.Null? || s.ItemValue? {
      return s, null;
    }
    it := Iterate(s);
    var first := it.Next();
    if first == None {
      r := Null;
    } else {
      var second := it.Next();
      if second == None {
        r := ItemValue(first.value);
      } else {
        var buffer := [first.value, second.value];
        var item := it.Next();
        while item != None
          invariant it.Valid() && it.items == Items(s) && 2 <= it.pos
          invariant item == None ==> it.pos == |it.items|
          invariant item != None ==> it.pos >= 1 && item == Some(it.items[it.pos - 1]) && buffer == it.items[..it.pos - 1]
          invariant item == None ==> buffer == it.items[..it.pos]
          decreases |it.items| - it.pos, if item == None then 0 else 1
        {
          buffer := buffer + [item.value];
          item := it.Next();
        }
        assert buffer == Items(s);
        r := Stream(buffer, false);
      }
    }
    it.Close();
  }
}
