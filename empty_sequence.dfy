// fn:empty and fn:exists (sections 15.1.4 and 15.1.5 of XQuery 1.0 and XPath
// 2.0 Functions and Operators), one function with an `empty` mode flag.

module EmptySequence {
  import opened Base
  import opened Jdm

  /** The answer by the argument's shape: null is empty, an item is not, and
    * otherwise the first iterator step decides. */
  function Answer(arg: Sequence, empty: bool): (r: bool)
    ensures r <==> (empty <==> Items(arg) == [])
  {
    match arg
    case Null => empty
    case ItemValue(_) => !empty
    case _ => if empty then Items(arg) == [] else Items(arg) != []
  }

  /** empty(s) is the negation of exists(s) for every argument. */
  lemma EmptyIsNotExists(arg: Sequence)
    ensures Answer(arg, true) == !Answer(arg, false)
  {
  }

  /** execute: a single step of the argument's iterator, which is closed again
    * whatever the answer. */
  method Execute(arg: Sequence, empty: bool) returns (r: bool, it: Iter?)
    ensures r == Answer(arg, empty)
    ensures it == null <==> (arg.Null? || arg.ItemValue?)
    ensures it != null ==> fresh(it) && it.isClosed && it.pos <= 1
  {
    if arg.Null? {
      return empty, null;
    } else if arg.ItemValue? {
      return !empty, null;
    }
    it := Iterate(arg);
    var first := it.Next();
    if empty {
      r := first == None;
    } else {
      r := first != None;
    }
    it.Close();
  }
}
