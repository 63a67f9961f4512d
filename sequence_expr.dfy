// The comma operator: a sequence expression whose operands are evaluated
// lazily, left to right, into a cache of non-empty operand results, which the
// flattening sequence reads position by position.

module SequenceExpr {
  import opened Base
  import opened Jdm
  import opened Exprs

  /** The non-empty operand results, in operand order. */
  function NonNulls(rs: seq<Sequence>): (r: seq<Sequence>)
    ensures |r| <= |rs|
    ensures forall k :: 0 <= k < |r| ==> r[k] != Null
    decreases |rs|
  {
    if rs == [] then []
    else if rs[|rs| - 1] == Null then NonNulls(rs[..|rs| - 1])
    else NonNulls(rs[..|rs| - 1]) + [rs[|rs| - 1]]
  }

  lemma {:induction false} NonNullsAppend(a: seq<Sequence>, b: seq<Sequence>)
    ensures NonNulls(a + b) == NonNulls(a) + NonNulls(b)
    decreases |b|
  {
    if b == [] {
      assert a + b == a;
    } else {
      var b' := b[..|b| - 1];
      assert (a + b)[..|a + b| - 1] == a + b';
      NonNullsAppend(a, b');
    }
  }

  /** Leaving out the empty results does not change the flattened items. */
  lemma {:induction false} NonNullsKeepItems(rs: seq<Sequence>)
    ensures ItemsOfAll(NonNulls(rs)) == ItemsOfAll(rs)
    decreases |rs|
  {
    if rs != [] {
      var init := rs[..|rs| - 1];
      var last := rs[|rs| - 1];
      assert rs == init + [last];
      NonNullsKeepItems(init);
      ItemsOfAllAppend(init, [last]);
      assert ItemsOfAll([last]) == Items(last) + ItemsOfAll([]);
      if last != Null {
        ItemsOfAllAppend(NonNulls(init), [last]);
      }
    }
  }

  /** One evaluation of a sequence expression (EvalSequence): `results[k]` is
    * what operand k evaluates to, `seqs` the cache, `eval` the next operand. */
  class EvalSequence {
    const results: seq<Sequence>
    const seqs: array<Sequence>
    var eval: nat

    ghost predicate Valid()
      reads this
    {
      seqs.Length == |results| && eval <= |results|
    }

    constructor (operands: seq<Expr>)
      ensures Valid() && fresh(seqs) && eval == 0
      ensures |results| == |operands| && forall k :: 0 <= k < |operands| ==> results[k] == operands[k].result
      ensures forall k :: 0 <= k < seqs.Length ==> seqs[k] == Null
    {
      results := seq(|operands|, k requires 0 <= k < |operands| => operands[k].result);
      seqs := new Sequence[|operands|](_ => Null);
      eval := 0;
    }

    /** sequence(pos): the cached result at pos, or else the next non-empty
      * operand result, evaluating operands from `eval` on and storing each
      * result at pos. */
    method Sequence(pos: nat) returns (r: Sequence)
      requires Valid()
      modifies this`eval, seqs
      ensures Valid()
      ensures pos >= |results| ==> r == Null && eval == old(eval) && seqs[..] == old(seqs[..])
      ensures pos < |results| && old(seqs[pos]) != Null ==>
                r == old(seqs[pos]) && eval == old(eval) && seqs[..] == old(seqs[..])
      ensures (pos < |results| && old(seqs[pos]) == Null) ==>
                (seqs[..] == old(seqs[..])[pos := r]
                 && forall k :: old(eval) <= k < eval - 1 ==> results[k] == Null)
      ensures (pos < |results| && old(seqs[pos]) == Null && r != Null) ==>
                old(eval) < eval && r == results[eval - 1]
      ensures (pos < |results| && old(seqs[pos]) == Null && r == Null) ==>
                eval == |results| && forall k :: old(eval) <= k < |results| ==> results[k] == Null
    {
      if pos >= seqs.Length {
        return Null;
      }
      var s := seqs[pos];
      if s != Null {
        return s;
      }
      while s == Null && eval < seqs.Length
        invariant old(eval) <= eval <= |results|
        invariant seqs[pos] == s
        invariant forall k :: 0 <= k < seqs.Length && k != pos ==> seqs[k] == old(seqs[k])
        invariant eval > old(eval) ==> s == results[eval - 1]
        invariant eval == old(eval) ==> s == Null
        invariant forall k :: old(eval) <= k < eval - 1 ==> results[k] == Null
        invariant s == Null ==> forall k :: old(eval) <= k < eval ==> results[k] == Null
      {
        s := results[eval];
        seqs[pos] := s;
        eval := eval + 1;
      }
      assert seqs[..] == old(seqs[..])[pos := s];
      r := s;
    }

    /** The flattening sequence's reading order: positions 0, 1, 2, ... until a
      * position yields nothing. Slot k ends up holding the k-th non-empty
      * operand result. */
    method ReadInOrder() returns (parts: seq<Sequence>)
      requires Valid() && eval == 0 && forall k :: 0 <= k < seqs.Length ==> seqs[k] == Null
      modifies this`eval, seqs
      ensures Valid()
      ensures parts == NonNulls(results)
      ensures seqs[..|parts|] == parts
      ensures ItemsOfAll(parts) == ItemsOfAll(results)
    {
      parts := [];
      var pos := 0;
      while true
        invariant Valid() && pos == |parts| <= eval
        invariant seqs[..pos] == parts
        invariant parts == NonNulls(results[..eval])
        invariant forall k :: pos <= k < seqs.Length ==> seqs[k] == Null
        decreases |results| - eval, |results| - pos
      {
        ghost var e0 := eval;
        var s := Sequence(pos);
        if s == Null {
          if pos < |results| {
            NullTail(results, e0);
          } else {
            NonNullsBound(results[..e0]);
            assert results[..e0] == results;
          }
          break;
        }
        NextNonNull(results, e0, eval, s);
        parts := parts + [s];
        pos := pos + 1;
      }
      NonNullsKeepItems(results);
    }
  }

  lemma {:induction false} AllNullsVanish(rs: seq<Sequence>)
    requires forall k :: 0 <= k < |rs| ==> rs[k] == Null
    ensures NonNulls(rs) == []
    decreases |rs|
  {
    if rs != [] {
      AllNullsVanish(rs[..|rs| - 1]);
    }
  }

  lemma NonNullsBound(rs: seq<Sequence>)
    ensures |NonNulls(rs)| <= |rs|
  {
  }

  /** Empty results after position e add nothing. */
  lemma NullTail(rs: seq<Sequence>, e: nat)
    requires e <= |rs| && forall k :: e <= k < |rs| ==> rs[k] == Null
    ensures NonNulls(rs) == NonNulls(rs[..e])
  {
    NonNullsAppend(rs[..e], rs[e..]);
    AllNullsVanish(rs[e..]);
    assert rs[..e] + rs[e..] == rs;
  }

  /** Skipping empty results up to the non-empty one at e - 1 adds just that one. */
  lemma NextNonNull(rs: seq<Sequence>, e0: nat, e: nat, s: Sequence)
    requires e0 < e <= |rs| && rs[e - 1] == s != Null
    requires forall k :: e0 <= k < e - 1 ==> rs[k] == Null
    ensures NonNulls(rs[..e]) == NonNulls(rs[..e0]) + [s]
  {
    NullTail(rs[..e - 1], e0);
    assert rs[..e - 1][..e0] == rs[..e0];
    assert rs[..e][..e - 1] == rs[..e - 1];
  }

  /** The tests' example: (1, (), 2, 3) flattens to the items of (1, 2, 3). */
  lemma EmptyOperandSkipped(a: Item, b: Item, c: Item)
    ensures ItemsOfAll([ItemValue(a), Null, ItemValue(b), ItemValue(c)]) == [a, b, c]
    ensures NonNulls([ItemValue(a), Null, ItemValue(b), ItemValue(c)]) == [ItemValue(a), ItemValue(b), ItemValue(c)]
  {
    var rs := [ItemValue(a), Null, ItemValue(b), ItemValue(c)];
    assert rs[1..][1..][1..][1..] == [];
    assert ItemsOfAll(rs[1..][1..][1..]) == [c];
    assert ItemsOfAll(rs[1..][1..]) == [b, c];
    assert ItemsOfAll(rs[1..]) == [b, c];
    assert rs[..1][..0] == [] && rs[..2][..1] == rs[..1] && rs[..3][..2] == rs[..2];
    assert NonNulls(rs[..1]) == [ItemValue(a)];
    assert NonNulls(rs[..2]) == [ItemValue(a)];
    assert NonNulls(rs[..3]) == [ItemValue(a), ItemValue(b)];
    assert rs[..3] == rs[..4][..3] && rs[..4] == rs;
  }

  /** A member of the array evaluateToItem builds: a missing item is null. */
  function AsMember(i: Option<Item>): Sequence
  {
    match i
    case None => Null
    case Some(x) => ItemValue(x)
  }

  /** The members of the array evaluateToItem builds, each operand evaluated
    * to an item in order; the first error is raised. */
  function Members(items: seq<Result<Option<Item>>>): (r: Result<seq<Sequence>>)
    ensures r.Ok? ==> |r.value| == |items|
    decreases |items|
  {
    if items == [] then Ok([])
    else
      var last := items[|items| - 1];
      match Members(items[..|items| - 1])
      case Err(e) => Err(e)
      case Ok(ms) => if last.Err? then Err(last.error) else Ok(ms + [AsMember(last.value)])
  }

  /** The array of the members, or their error. */
  function ArrayOf(members: Result<seq<Sequence>>): Result<Option<Item>>
  {
    match members
    case Err(e) => Err(e)
    case Ok(ms) => Ok(Some(ArrayItem(ms)))
  }

  /** The scan for a non-null item from operand i on: reaching the last
    * operand gives its item; an earlier non-null item makes the array of
    * every operand's item; an error is raised. */
  function ScanFrom(items: seq<Result<Option<Item>>>, i: nat): Result<Option<Item>>
    requires 2 <= |items| && i < |items|
    decreases |items| - i
  {
    if i == |items| - 1 then items[i]
    else
      match items[i]
      case Err(e) => Err(e)
      case Ok(None) => ScanFrom(items, i + 1)
      case Ok(Some(_)) => ArrayOf(Members(items))
  }

  /** evaluateToItem: no operand gives null, one operand is delegated to; with
    * several, the last operand's item when all before it are null, and
    * otherwise an array of every operand's item. */
  function ToItem(items: seq<Result<Option<Item>>>): Result<Option<Item>>
  {
    if items == [] then Ok(None)
    else if |items| == 1 then items[0]
    else ScanFrom(items, 0)
  }

  /** What evaluateToItem gives for each operand. */
  function ItemsOf(operands: seq<Expr>): (items: seq<Result<Option<Item>>>)
    ensures |items| == |operands| && forall k :: 0 <= k < |operands| ==> items[k] == operands[k].item
  {
    seq(|operands|, k requires 0 <= k < |operands| => operands[k].item)
  }

  /** The members of operands that all succeeded. */
  function OkMembers(items: seq<Result<Option<Item>>>): (ms: seq<Sequence>)
    requires forall k :: 0 <= k < |items| ==> items[k].Ok?
    ensures |ms| == |items| && forall k :: 0 <= k < |items| ==> ms[k] == AsMember(items[k].value)
  {
    seq(|items|, k requires 0 <= k < |items| => AsMember(items[k].value))
  }

  /** Without errors the members are the operands' items, null ones as null. */
  lemma {:induction false} MembersOk(items: seq<Result<Option<Item>>>)
    requires forall k :: 0 <= k < |items| ==> items[k].Ok?
    ensures Members(items) == Ok(OkMembers(items))
    decreases |items|
  {
    if items != [] {
      var init := items[..|items| - 1];
      MembersOk(init);
      assert Members(items) == Ok(OkMembers(init) + [AsMember(items[|items| - 1].value)]);
      assert OkMembers(items) == OkMembers(init) + [AsMember(items[|items| - 1].value)];
    } else {
      assert OkMembers(items) == [];
    }
  }

  /** The members fail with the error of the first failing operand. */
  lemma {:induction false} MembersFirstError(items: seq<Result<Option<Item>>>, k: nat)
    requires k < |items| && items[k].Err? && forall j :: 0 <= j < k ==> items[j].Ok?
    ensures Members(items) == Err(items[k].error)
    decreases |items|
  {
    var init := items[..|items| - 1];
    if k < |items| - 1 {
      MembersFirstError(init, k);
    } else {
      MembersOk(init);
    }
  }

  /** One more member: the error of the earlier ones, or that of the new one,
    * or the earlier members followed by the new one. */
  lemma MembersSnoc(items: seq<Result<Option<Item>>>, j: nat)
    requires j < |items|
    ensures Members(items[..j + 1]) ==
              match Members(items[..j])
              case Err(e) => Err(e)
              case Ok(ms) => if items[j].Err? then Err(items[j].error) else Ok(ms + [AsMember(items[j].value)])
  {
    assert items[..j + 1][..j] == items[..j];
  }

  /** An error among the first m members is the error of all of them. */
  lemma {:induction false} MembersErrorExtends(items: seq<Result<Option<Item>>>, m: nat)
    requires m <= |items| && Members(items[..m]).Err?
    ensures Members(items) == Members(items[..m])
    decreases |items| - m
  {
    if m < |items| {
      MembersSnoc(items, m);
      MembersErrorExtends(items, m + 1);
    } else {
      assert items[..m] == items;
    }
  }

  /** The scan raises the first error among the operands from i on, when the
    * operands before i are all fine. */
  lemma {:induction false} ScanFirstError(items: seq<Result<Option<Item>>>, i: nat, k: nat)
    requires 2 <= |items| && i <= k < |items| && items[k].Err?
    requires forall j :: 0 <= j < k ==> items[j].Ok?
    ensures ScanFrom(items, i) == Err(items[k].error)
    decreases |items| - i
  {
    if i < |items| - 1 && i < k {
      if items[i] == Ok(None) {
        ScanFirstError(items, i + 1, k);
      } else {
        MembersFirstError(items, k);
      }
    }
  }

  /** With no error the scan gives null exactly when every operand from i on
    * gives null, and it never fails. */
  lemma {:induction false} ScanNone(items: seq<Result<Option<Item>>>, i: nat)
    requires 2 <= |items| && i < |items| && forall k :: 0 <= k < |items| ==> items[k].Ok?
    ensures ScanFrom(items, i) == Ok(None) <==> forall k :: i <= k < |items| ==> items[k] == Ok(None)
    ensures ScanFrom(items, i).Ok?
    decreases |items| - i
  {
    if i < |items| - 1 {
      ScanNone(items, i + 1);
      if items[i] != Ok(None) {
        MembersOk(items);
      }
    }
  }

  /** With no error the scan reaching operand i gives the array of all items
    * as soon as an operand before the last is non-null. */
  lemma {:induction false} ScanArray(items: seq<Result<Option<Item>>>, i: nat, k: nat)
    requires 2 <= |items| && i <= k < |items| - 1 && forall j :: 0 <= j < |items| ==> items[j].Ok?
    requires items[k] != Ok(None) && forall j :: i <= j < k ==> items[j] == Ok(None)
    ensures ScanFrom(items, i) == Ok(Some(ArrayItem(OkMembers(items))))
    decreases |items| - i
  {
    MembersOk(items);
    if i < k {
      ScanArray(items, i + 1, k);
    }
  }

  /** The scan over null operands reaches the last one. */
  lemma {:induction false} ScanLast(items: seq<Result<Option<Item>>>, i: nat)
    requires 2 <= |items| && i < |items| && forall k :: i <= k < |items| - 1 ==> items[k] == Ok(None)
    ensures ScanFrom(items, i) == items[|items| - 1]
    decreases |items| - i
  {
    if i < |items| - 1 {
      ScanLast(items, i + 1);
    }
  }

  /** The first operand from i on before the last that is not null. */
  function FirstNonNull(items: seq<Result<Option<Item>>>, i: nat): (k: nat)
    requires i < |items| - 1 && exists k :: i <= k < |items| - 1 && items[k] != Ok(None)
    ensures i <= k < |items| - 1 && items[k] != Ok(None) && forall j :: i <= j < k ==> items[j] == Ok(None)
    decreases |items| - i
  {
    if items[i] != Ok(None) then i else FirstNonNull(items, i + 1)
  }

  /** The first failing operand from i on. */
  function FirstErr(items: seq<Result<Option<Item>>>, i: nat): (k: nat)
    requires i < |items| && exists k :: i <= k < |items| && items[k].Err?
    ensures i <= k < |items| && items[k].Err? && forall j :: i <= j < k ==> items[j].Ok?
    decreases |items| - i
  {
    if items[i].Err? then i else FirstErr(items, i + 1)
  }

  /** The item is null exactly when every operand's item is null; it is the
    * last operand's own item (or error) when all before it are null; and
    * without errors a non-null operand before the last makes the array of
    * all items. */
  lemma ToItemCases(items: seq<Result<Option<Item>>>)
    ensures ToItem(items) == Ok(None) <==> forall k :: 0 <= k < |items| ==> items[k] == Ok(None)
    ensures (|items| >= 1 && forall k :: 0 <= k < |items| - 1 ==> items[k] == Ok(None)) ==>
              ToItem(items) == items[|items| - 1]
    ensures ((forall j :: 0 <= j < |items| ==> items[j].Ok?) && exists k :: 0 <= k < |items| - 1 && items[k] != Ok(None)) ==>
              ToItem(items) == Ok(Some(ArrayItem(OkMembers(items))))
  {
    if |items| >= 2 {
      if forall k :: 0 <= k < |items| ==> items[k].Ok? {
        ScanNone(items, 0);
        if exists k :: 0 <= k < |items| - 1 && items[k] != Ok(None) {
          ScanArray(items, 0, FirstNonNull(items, 0));
        }
      } else {
        var k := FirstErr(items, 0);
        ScanFirstError(items, 0, k);
      }
      if forall k :: 0 <= k < |items| - 1 ==> items[k] == Ok(None) {
        ScanLast(items, 0);
      }
    }
  }

  /** The item is an error exactly when some operand's item is. */
  lemma ToItemError(items: seq<Result<Option<Item>>>)
    ensures ToItem(items).Err? <==> exists k :: 0 <= k < |items| && items[k].Err?
  {
    if |items| >= 2 {
      if forall k :: 0 <= k < |items| ==> items[k].Ok? {
        ScanNone(items, 0);
      } else {
        var k := FirstErr(items, 0);
        ScanFirstError(items, 0, k);
      }
    }
  }

  /** The error raised is that of the first failing operand. */
  lemma ToItemFirstError(items: seq<Result<Option<Item>>>, k: nat)
    requires k < |items| && items[k].Err? && forall j :: 0 <= j < k ==> items[j].Ok?
    ensures ToItem(items) == Err(items[k].error)
  {
    if |items| >= 2 {
      ScanFirstError(items, 0, k);
    }
  }

  /** When every operand's evaluateToItem agrees with its evaluate, the item
    * is err:XPTY0004 exactly when some operand has two or more items. */
  lemma ToItemTooMany(operands: seq<Expr>)
    requires forall k :: 0 <= k < |operands| ==> ItemAgrees(operands[k])
    ensures ToItem(ItemsOf(operands)).Err? <==> exists k :: 0 <= k < |operands| && |Items(operands[k].result)| >= 2
    ensures ToItem(ItemsOf(operands)).Err? ==> ToItem(ItemsOf(operands)).error == ErrTypeInappropriateType
  {
    var items := ItemsOf(operands);
    ToItemError(items);
    forall k | 0 <= k < |operands|
      ensures items[k].Err? <==> |Items(operands[k].result)| >= 2
      ensures items[k].Err? ==> items[k].error == ErrTypeInappropriateType
    {
      assert ItemAgrees(operands[k]);
    }
    if ToItem(items).Err? {
      ToItemFirstError(items, FirstErr(items, 0));
    }
  }

  /** One round of the scan loop at operand i before the last. */
  lemma ScanStep(items: seq<Result<Option<Item>>>, i: nat)
    requires 2 <= |items| && i < |items| - 1
    ensures items[i].Err? ==> ScanFrom(items, i) == Err(items[i].error)
    ensures items[i] == Ok(None) ==> ScanFrom(items, i) == ScanFrom(items, i + 1)
    ensures items[i].Ok? && items[i].value.Some? ==> ScanFrom(items, i) == ArrayOf(Members(items))
  {
  }

  method EvaluateToItem(operands: seq<Expr>) returns (r: Result<Option<Item>>)
    ensures r == ToItem(ItemsOf(operands))
  {
    ghost var items := ItemsOf(operands);
    var n := |operands|;
    if n == 0 {
      return Ok(None);
    } else if n == 1 {
      return operands[0].item;
    }
    var i := 0;
    var res: Option<Item> := None;
    while i < n && res == None
      invariant 0 <= i <= n
      invariant res != None ==> i > 0
      invariant i > 0 ==> items[i - 1] == Ok(res) && ScanFrom(items, 0) == ScanFrom(items, i - 1)
      invariant i < n && res == None ==> ScanFrom(items, 0) == ScanFrom(items, i)
    {
      var x := operands[i].item;
      if i < n - 1 {
        ScanStep(items, i);
      }
      if x.Err? {
        return Err(x.error);
      }
      res := x.value;
      i := i + 1;
    }
    if i == n {
      return Ok(res);
    }
    ScanStep(items, i - 1);
    var values: seq<Sequence> := [];
    var j := 0;
    while j < n
      invariant 0 <= j <= n
      invariant Members(items[..j]) == Ok(values)
    {
      var x := operands[j].item;
      MembersSnoc(items, j);
      if x.Err? {
        MembersErrorExtends(items, j + 1);
        return Err(x.error);
      }
      values := values + [AsMember(x.value)];
      j := j + 1;
    }
    assert items[..n] == items;
    r := Ok(Some(ArrayItem(values)));
  }

  /** isUpdating: some operand is updating. */
  method IsUpdating(operands: seq<Expr>) returns (r: bool)
    ensures r <==> exists k :: 0 <= k < |operands| && operands[k].updating
  {
    for i := 0 to |operands|
      invariant forall k :: 0 <= k < i ==> !operands[k].updating
    {
      if operands[i].updating {
        return true;
      }
    }
    return false;
  }

  /** isVacuous: every operand is vacuous (so also when there is none). */
  method IsVacuous(operands: seq<Expr>) returns (r: bool)
    ensures r <==> forall k :: 0 <= k < |operands| ==> operands[k].vacuous
  {
    for i := 0 to |operands|
      invariant forall k :: 0 <= k < i ==> operands[k].vacuous
    {
      if !operands[i].vacuous {
        return false;
      }
    }
    return true;
  }

  function Texts(operands: seq<Expr>): seq<string>
  {
    seq(|operands|, k requires 0 <= k < |operands| => operands[k].text)
  }

  /** toString: the operands' texts between parentheses, separated by ", ". */
  method ToString(operands: seq<Expr>) returns (r: string)
    ensures r == "(" + JoinWith(", ", Texts(operands)) + ")"
  {
    var out := "(";
    var first := true;
    for i := 0 to |operands|
      invariant first <==> i == 0
      invariant out == "(" + JoinWith(", ", Texts(operands[..i]))
    {
      if first {
        first := false;
      } else {
        out := out + ", ";
      }
      out := out + operands[i].text;
      if i > 0 {
        assert Texts(operands[..i + 1]) == Texts(operands[..i]) + [operands[i].text];
        JoinWithSnoc(", ", Texts(operands[..i]), operands[i].text);
      } else {
        assert Texts(operands[..1]) == [operands[0].text];
      }
    }
    assert operands[..|operands|] == operands;
    r := out + ")";
  }
}
