// fn:deep-equal (section 15.3.1 of XQuery 1.0 and XPath 2.0 Functions and
// Operators): sequences compare item by item, atomics through the atomic
// eq (a parameter here), nodes by kind, name, value, attributes and their
// element and text children.

module DeepEqual {
  import opened Base
  import opened Jdm

  const CodepointCollation := "http://www.w3.org/2005/xpath-functions/collation/codepoint"

  /** The atomic eq comparison, which may fail with an error. */
  type AtomicEq = (Atomic, Atomic) -> Result<bool>

  /** atomicDeepEquals: a type error of eq counts as "not equal"; any other
    * error propagates. */
  function AtomicDeepEquals(a: Atomic, b: Atomic, eq: AtomicEq): (r: Result<bool>)
    ensures eq(a, b).Ok? ==> r == eq(a, b)
    ensures eq(a, b) == Err(ErrTypeInappropriateType) ==> r == Ok(false)
    ensures (eq(a, b).Err? && eq(a, b).error != ErrTypeInappropriateType) ==> r == eq(a, b)
  {
    var e := eq(a, b);
    if e.Err? && e.error == ErrTypeInappropriateType then Ok(false) else e
  }

  /** Children that take part in the comparison: elements and text. */
  predicate IsContent(n: Node)
  {
    n.kind == Element || n.kind == Text
  }

  /** The first content child at or after i (|ns| when there is none). */
  function NextContent(ns: seq<Node>, i: nat): (j: nat)
    requires i <= |ns|
    ensures i <= j <= |ns|
    ensures forall k :: i <= k < j ==> !IsContent(ns[k])
    ensures j < |ns| ==> IsContent(ns[j])
    decreases |ns| - i
  {
    if i == |ns| || IsContent(ns[i]) then i else NextContent(ns, i + 1)
  }

  /** attributesDeepEqual: as many attributes on each side, and every
    * attribute of b has one in a with the same name and value. */
  predicate AttributesMatch(ach: seq<Node>, bch: seq<Node>)
  {
    |ach| == |bch| && forall j :: 0 <= j < |bch| ==> HasMatch(ach, bch[j])
  }

  /** Some attribute of a has b's name and value. */
  predicate HasMatch(ach: seq<Node>, b: Node)
  {
    exists i :: 0 <= i < |ach| && SameAttribute(ach[i], b)
  }

  predicate SameAttribute(a: Node, b: Node)
  {
    a.name == b.name && a.value == b.value
  }

  /** nodeDeepEquals. `fixed` selects the children comparison: false is the
    * loop as written, true skips comments and processing instructions on both
    * sides before deciding that one side has run out. */
  function NodeDeepEquals(a: Node, b: Node, fixed: bool): (r: Result<bool>)
    ensures a.kind != b.kind ==> r == Ok(false)
    ensures r == Ok(true) ==>
              (a.kind == b.kind &&
               (a.kind == Element || a.kind == Attribute || a.kind == ProcessingInstruction ==> a.name == b.name) &&
               (a.kind == Attribute || a.kind == Text || a.kind == Comment || a.kind == ProcessingInstruction ==> a.value == b.value) &&
               (a.kind == Element ==> AttributesMatch(a.attributes, b.attributes)))
    ensures r.Err? ==> a.kind == b.kind && (a.kind == Element || a.kind == Document || a.kind == Namespace)
    decreases a, 1
  {
    if a.kind != b.kind then Ok(false)
    else match a.kind
      case Element =>
        if a.name != b.name then Ok(false)
        else if !AttributesMatch(a.attributes, b.attributes) then Ok(false)
        else ChildrenFrom(a.children, 0, b.children, 0, fixed)
      case Attribute => Ok(a.name == b.name && a.value == b.value)
      case Text => Ok(a.value == b.value)
      case Comment => Ok(a.value == b.value)
      case Document => ChildrenFrom(a.children, 0, b.children, 0, fixed)
      case ProcessingInstruction => Ok(a.name == b.name && a.value == b.value)
      case Namespace => Err(ErrIllegalState)
  }

  /** childrenDeepEqual from the sibling positions i and j on. */
  function ChildrenFrom(ach: seq<Node>, i: nat, bch: seq<Node>, j: nat, fixed: bool): Result<bool>
    requires i <= |ach| && j <= |bch|
    decreases ach, 0, |ach| - i
  {
    if !fixed && (i == |ach| || j == |bch|) then Ok(i == |ach| && j == |bch|)
    else
      var i' := NextContent(ach, i);
      var j' := NextContent(bch, j);
      if i' == |ach| || j' == |bch| then Ok(i' == |ach| && j' == |bch|)
      else match NodeDeepEquals(ach[i'], bch[j'], fixed)
        case Err(e) => Err(e)
        case Ok(same) => if !same then Ok(false) else ChildrenFrom(ach, i' + 1, bch, j' + 1, fixed)
  }

  /** childrenDeepEqual as written: the loop stops as soon as one side has no
    * sibling left, before skipping the other side's comments. */
  function ChildrenDeepEqualAsWritten(a: Node, b: Node): Result<bool>
  {
    ChildrenFrom(a.children, 0, b.children, 0, false)
  }

  /** childrenDeepEqual as the specification of fn:deep-equal intends it. */
  function ChildrenDeepEqual(a: Node, b: Node): Result<bool>
  {
    ChildrenFrom(a.children, 0, b.children, 0, true)
  }

  /** The content children (elements and text), in order. */
  function ContentOf(ns: seq<Node>): (r: seq<Node>)
    ensures |r| <= |ns|
    ensures forall k :: 0 <= k < |r| ==> IsContent(r[k]) && r[k] in ns
  {
    if ns == [] then []
    else if IsContent(ns[0]) then [ns[0]] + ContentOf(ns[1..])
    else ContentOf(ns[1..])
  }

  lemma {:induction false} ContentFrom(ns: seq<Node>, i: nat)
    requires i <= |ns|
    ensures NextContent(ns, i) == |ns| ==> ContentOf(ns[i..]) == []
    ensures NextContent(ns, i) < |ns| ==>
              ContentOf(ns[i..]) == [ns[NextContent(ns, i)]] + ContentOf(ns[NextContent(ns, i) + 1..])
    decreases |ns| - i
  {
    if i < |ns| {
      assert ns[i..][1..] == ns[i + 1..];
      if !IsContent(ns[i]) {
        ContentFrom(ns, i + 1);
      }
    }
  }

  /** The content from i on starts with the first content child at or after i. */
  lemma ContentAt(ns: seq<Node>, i: nat, i': nat)
    requires i <= |ns| && i' == NextContent(ns, i) && i' < |ns|
    ensures ContentOf(ns[i..]) == [ns[i']] + ContentOf(ns[i' + 1..])
  {
    ContentFrom(ns, i);
  }

  /** Pairwise deep-equal lists of the same length. */
  predicate PairwiseDeepEqual(cs: seq<Node>, ds: seq<Node>)
    decreases |cs|
  {
    if cs == [] || ds == [] then cs == [] && ds == []
    else NodeDeepEquals(cs[0], ds[0], true) == Ok(true) && PairwiseDeepEqual(cs[1..], ds[1..])
  }

  /** Pairwise means: as many on each side, and the k-th nodes deep-equal. */
  lemma {:induction false} PairwiseDeepEqualIndexwise(cs: seq<Node>, ds: seq<Node>)
    ensures PairwiseDeepEqual(cs, ds) <==>
              |cs| == |ds| && forall k :: 0 <= k < |cs| ==> NodeDeepEquals(cs[k], ds[k], true) == Ok(true)
    decreases |cs|
  {
    if cs != [] && ds != [] {
      PairwiseDeepEqualIndexwise(cs[1..], ds[1..]);
      if |cs| == |ds| && NodeDeepEquals(cs[0], ds[0], true) == Ok(true) {
        assert forall k :: 1 <= k < |cs| ==> cs[k] == cs[1..][k - 1] && ds[k] == ds[1..][k - 1];
      }
    }
  }

  lemma PairwiseCons(x: Node, cs: seq<Node>, y: Node, ds: seq<Node>)
    ensures PairwiseDeepEqual([x] + cs, [y] + ds) <==>
              NodeDeepEquals(x, y, true) == Ok(true) && PairwiseDeepEqual(cs, ds)
  {
    assert ([x] + cs)[1..] == cs && ([y] + ds)[1..] == ds;
  }

  /** The corrected children comparison succeeds exactly when both sides have
    * as many element and text children and these are pairwise deep-equal. */
  lemma {:induction false} ChildrenDeepEqualPairwise(ach: seq<Node>, i: nat, bch: seq<Node>, j: nat)
    requires i <= |ach| && j <= |bch|
    ensures ChildrenFrom(ach, i, bch, j, true) == Ok(true) <==> PairwiseDeepEqual(ContentOf(ach[i..]), ContentOf(bch[j..]))
    decreases |ach| - i, 1
  {
    if NextContent(ach, i) < |ach| && NextContent(bch, j) < |bch| {
      ChildrenPairwiseMore(ach, i, bch, j);
    } else {
      ChildrenPairwiseDone(ach, i, bch, j);
    }
  }

  /** The inductive case: content left on both sides. */
  lemma {:induction false} ChildrenPairwiseMore(ach: seq<Node>, i: nat, bch: seq<Node>, j: nat)
    requires i <= |ach| && j <= |bch|
    requires NextContent(ach, i) < |ach| && NextContent(bch, j) < |bch|
    ensures ChildrenFrom(ach, i, bch, j, true) == Ok(true) <==> PairwiseDeepEqual(ContentOf(ach[i..]), ContentOf(bch[j..]))
    decreases |ach| - i, 0
  {
    var i' := NextContent(ach, i);
    var j' := NextContent(bch, j);
    var ra, rb := ContentOf(ach[i' + 1..]), ContentOf(bch[j' + 1..]);
    var head := NodeDeepEquals(ach[i'], bch[j'], true) == Ok(true);
    var rest := ChildrenFrom(ach, i' + 1, bch, j' + 1, true) == Ok(true);
    assert (ChildrenFrom(ach, i, bch, j, true) == Ok(true)) == (head && rest) by {
      ChildrenStepMore(ach, i, bch, j, i', j');
    }
    assert rest == PairwiseDeepEqual(ra, rb) by {
      ChildrenDeepEqualPairwise(ach, i' + 1, bch, j' + 1);
    }
    assert PairwiseDeepEqual(ContentOf(ach[i..]), ContentOf(bch[j..])) == (head && PairwiseDeepEqual(ra, rb)) by {
      ContentAt(ach, i, i');
      ContentAt(bch, j, j');
      PairwiseCons(ach[i'], ra, bch[j'], rb);
    }
  }

  /** The base case: one side has no content left. */
  lemma ChildrenPairwiseDone(ach: seq<Node>, i: nat, bch: seq<Node>, j: nat)
    requires i <= |ach| && j <= |bch|
    requires NextContent(ach, i) == |ach| || NextContent(bch, j) == |bch|
    ensures ChildrenFrom(ach, i, bch, j, true) == Ok(true) <==> PairwiseDeepEqual(ContentOf(ach[i..]), ContentOf(bch[j..]))
  {
    ContentFrom(ach, i);
    ContentFrom(bch, j);
    ChildrenStepDone(ach, i, bch, j, NextContent(ach, i), NextContent(bch, j));
    PairwiseEmpty(ContentOf(ach[i..]), ContentOf(bch[j..]));
  }

  /** A round of the corrected loop with content on both sides. */
  lemma ChildrenStepMore(ach: seq<Node>, i: nat, bch: seq<Node>, j: nat, i': nat, j': nat)
    requires i <= |ach| && j <= |bch| && i' == NextContent(ach, i) && j' == NextContent(bch, j)
    requires i' < |ach| && j' < |bch|
    ensures (ChildrenFrom(ach, i, bch, j, true) == Ok(true)) ==
            (NodeDeepEquals(ach[i'], bch[j'], true) == Ok(true) && ChildrenFrom(ach, i' + 1, bch, j' + 1, true) == Ok(true))
  {
  }

  /** A round of the corrected loop with no content left on one side. */
  lemma ChildrenStepDone(ach: seq<Node>, i: nat, bch: seq<Node>, j: nat, i': nat, j': nat)
    requires i <= |ach| && j <= |bch| && i' == NextContent(ach, i) && j' == NextContent(bch, j)
    requires i' == |ach| || j' == |bch|
    ensures ChildrenFrom(ach, i, bch, j, true) == Ok(i' == |ach| && j' == |bch|)
  {
  }

  /** Lists one of which is empty are pairwise equal exactly when both are. */
  lemma PairwiseEmpty(ca: seq<Node>, cb: seq<Node>)
    requires ca == [] || cb == []
    ensures PairwiseDeepEqual(ca, cb) <==> ca == [] && cb == []
  {
  }

  /** One step of the corrected children comparison. */
  lemma ChildrenStep(ach: seq<Node>, i: nat, bch: seq<Node>, j: nat)
    requires i <= |ach| && j <= |bch|
    ensures var i', j' := NextContent(ach, i), NextContent(bch, j);
            (i' == |ach| || j' == |bch| ==> ChildrenFrom(ach, i, bch, j, true) == Ok(i' == |ach| && j' == |bch|)) &&
            (i' < |ach| && j' < |bch| ==>
               (ChildrenFrom(ach, i, bch, j, true) == Ok(true) <==>
                NodeDeepEquals(ach[i'], bch[j'], true) == Ok(true) && ChildrenFrom(ach, i' + 1, bch, j' + 1, true) == Ok(true)))
  {
  }

  /** Whatever the loop as written accepts, the corrected comparison accepts. */
  lemma {:induction false} AsWrittenImpliesCorrected(ach: seq<Node>, i: nat, bch: seq<Node>, j: nat)
    requires i <= |ach| && j <= |bch|
    requires ChildrenFrom(ach, i, bch, j, false) == Ok(true)
    ensures ChildrenFrom(ach, i, bch, j, true) == Ok(true)
    decreases ach, 0, |ach| - i
  {
    var i' := NextContent(ach, i);
    var j' := NextContent(bch, j);
    if i' < |ach| && j' < |bch| {
      NodeAsWrittenImpliesCorrected(ach[i'], bch[j']);
      AsWrittenImpliesCorrected(ach, i' + 1, bch, j' + 1);
    }
  }

  lemma {:induction false} NodeAsWrittenImpliesCorrected(a: Node, b: Node)
    requires NodeDeepEquals(a, b, false) == Ok(true)
    ensures NodeDeepEquals(a, b, true) == Ok(true)
    decreases a, 1
  {
    if a.kind == b.kind && (a.kind == Element || a.kind == Document) {
      AsWrittenImpliesCorrected(a.children, 0, b.children, 0);
    }
  }

  /** The input that shows the difference: an element whose only child is a
    * text node against an equal element that also ends in a comment. */
  lemma TrailingCommentCounterexample(name: QNm, v: Atomic, c: Atomic)
    ensures var t := Node(Text, None, v, [], []);
            var cm := Node(Comment, None, c, [], []);
            var a := Node(Element, Some(name), v, [], [t]);
            var b := Node(Element, Some(name), v, [], [t, cm]);
            ChildrenDeepEqualAsWritten(a, b) == Ok(false) &&
            ChildrenDeepEqual(a, b) == Ok(true) &&
            NodeDeepEquals(a, b, false) == Ok(false) &&
            NodeDeepEquals(a, b, true) == Ok(true)
  {
    var t := Node(Text, None, v, [], []);
    var cm := Node(Comment, None, c, [], []);
    assert NodeDeepEquals(t, t, false) == Ok(true);
    assert NodeDeepEquals(t, t, true) == Ok(true);
    assert NextContent([t], 0) == 0 && NextContent([t, cm], 0) == 0;
    assert NextContent([t], 1) == 1;
    assert NextContent([t, cm], 2) == 2;
    assert NextContent([t, cm], 1) == 2;
    assert ChildrenFrom([t], 1, [t, cm], 1, false) == Ok(false);
    assert ChildrenFrom([t], 0, [t, cm], 0, false) == Ok(false);
    assert ChildrenFrom([t], 1, [t, cm], 1, true) == Ok(true);
    assert ChildrenFrom([t], 0, [t, cm], 0, true) == Ok(true);
    assert AttributesMatch([], []);
  }

  /** No namespace node anywhere among the children (the only kind that raises). */
  predicate NoNamespaceNodes(a: Node)
    decreases a
  {
    a.kind != Namespace && forall k :: 0 <= k < |a.children| ==> NoNamespaceNodes(a.children[k])
  }

  /** A node without namespace nodes is deep-equal to itself, with either
    * children comparison. */
  lemma {:induction false} NodeDeepEqualsReflexive(a: Node, fixed: bool)
    requires NoNamespaceNodes(a)
    ensures NodeDeepEquals(a, a, fixed) == Ok(true)
    decreases a, 1
  {
    if a.kind == Element || a.kind == Document {
      if a.kind == Element {
        assert forall j :: 0 <= j < |a.attributes| ==> SameAttribute(a.attributes[j], a.attributes[j]);
      }
      ChildrenReflexive(a, a.children, 0, fixed);
    }
  }

  lemma {:induction false} ChildrenReflexive(a: Node, ns: seq<Node>, i: nat, fixed: bool)
    requires ns == a.children && i <= |ns|
    requires forall k :: 0 <= k < |ns| ==> NoNamespaceNodes(ns[k])
    ensures ChildrenFrom(ns, i, ns, i, fixed) == Ok(true)
    decreases a, 0, |ns| - i
  {
    var i' := NextContent(ns, i);
    if i' < |ns| && !(!fixed && i == |ns|) {
      NodeDeepEqualsReflexive(ns[i'], fixed);
      ChildrenReflexive(a, ns, i' + 1, fixed);
    }
  }

  /** deepEquals(Item, Item): a missing b item is unequal; atomics only equal
    * atomics; a node only equals a node, and a JSON item against a node fails
    * the cast to Node. Nodes use the corrected children comparison. */
  function ItemDeepEquals(a: Item, b: Option<Item>, eq: AtomicEq): (r: Result<bool>)
    ensures b == None ==> r == Ok(false)
    ensures b != None && a.AtomicItem? != b.value.AtomicItem? ==> r == Ok(false)
    ensures b != None && !a.AtomicItem? && !b.value.NodeItem? ==> r == Ok(false)
    ensures b != None && a.AtomicItem? && b.value.AtomicItem? ==> r == AtomicDeepEquals(a.atomic, b.value.atomic, eq)
    ensures b != None && (a.ObjectItem? || a.ArrayItem?) && b.value.NodeItem? ==> r == Err(ClassCast)
    ensures b != None && a.NodeItem? && b.value.NodeItem? ==> r == NodeDeepEquals(a.node, b.value.node, true)
  {
    match b
    case None => Ok(false)
    case Some(y) =>
      if a.AtomicItem? then
        (if !y.AtomicItem? then Ok(false) else AtomicDeepEquals(a.atomic, y.atomic, eq))
      else if !y.NodeItem? then Ok(false)
      else if !a.NodeItem? then Err(ClassCast)
      else NodeDeepEquals(a.node, y.node, true)
  }

  function Rest<T>(xs: seq<T>): seq<T>
  {
    if xs == [] then [] else xs[1..]
  }

  function Head<T>(xs: seq<T>): Option<T>
  {
    if xs == [] then None else Some(xs[0])
  }

  /** deepEquals(Sequence, Sequence) on the items of both sides: each item of a
    * against the next item of b (none once b is exhausted), stopping at the
    * first difference or error; then b must be exhausted too. */
  function SequenceDeepEquals(xs: seq<Item>, ys: seq<Item>, eq: AtomicEq): Result<bool>
    decreases |xs|
  {
    if xs == [] then Ok(ys == [])
    else match ItemDeepEquals(xs[0], Head(ys), eq)
      case Err(e) => Err(e)
      case Ok(same) => if !same then Ok(false) else SequenceDeepEquals(xs[1..], Rest(ys), eq)
  }

  /** Two sequences are deep-equal exactly when they have the same length and
    * are pairwise deep-equal in order. */
  lemma {:induction false} SequenceDeepEqualsPairwise(xs: seq<Item>, ys: seq<Item>, eq: AtomicEq)
    ensures SequenceDeepEquals(xs, ys, eq) == Ok(true) <==>
              (|xs| == |ys| && forall k :: 0 <= k < |xs| ==> ItemDeepEquals(xs[k], Some(ys[k]), eq) == Ok(true))
    decreases |xs|
  {
    if xs != [] {
      SequenceDeepEqualsPairwise(xs[1..], Rest(ys), eq);
      if ys != [] && ItemDeepEquals(xs[0], Some(ys[0]), eq) == Ok(true) {
        if |xs| == |ys| {
          assert forall k :: 1 <= k < |xs| ==> xs[k] == xs[1..][k - 1] && ys[k] == ys[1..][k - 1];
        }
      }
    }
  }

  /** null against null is true, and null against S is true exactly when S has
    * no items, in either order. */
  lemma EmptyAgainstAny(s: Sequence, eq: AtomicEq)
    ensures SequenceDeepEquals(Items(Null), Items(s), eq) == Ok(Items(s) == [])
    ensures SequenceDeepEquals(Items(s), Items(Null), eq) == Ok(Items(s) == [])
  {
    if Items(s) != [] {
      assert ItemDeepEquals(Items(s)[0], None, eq) == Ok(false);
    }
  }

  lemma SequenceStep(xs: seq<Item>, ys: seq<Item>, eq: AtomicEq)
    requires xs != []
    ensures var e := ItemDeepEquals(xs[0], Head(ys), eq);
            SequenceDeepEquals(xs, ys, eq) == if e.Err? || !e.value then e else SequenceDeepEquals(xs[1..], Rest(ys), eq)
  {
  }

  /** deepEquals on sequences: the two null cases each look at one item of the
    * other side; otherwise both iterators advance in step. */
  method DeepEquals(a: Sequence, b: Sequence, eq: AtomicEq) returns (r: Result<bool>)
    ensures r == SequenceDeepEquals(Items(a), Items(b), eq)
  {
    if a.Null? {
      if b.Null? {
        return Ok(true);
      }
      r := FirstIsNull(b);
      EmptyAgainstAny(b, eq);
    } else if b.Null? {
      r := FirstIsNull(a);
      EmptyAgainstAny(a, eq);
    } else {
      r := DeepEqualsInStep(a, b, eq);
    }
  }

  /** Whether the first step of an iterator over s finds nothing. */
  method FirstIsNull(s: Sequence) returns (r: Result<bool>)
    ensures r == Ok(Items(s) == [])
  {
    var it := Iterate(s);
    var first := it.Next();
    it.Close();
    r := Ok(first == None);
  }

  /** One step of the item-by-item comparison, at item k of xs and item bp of
    * ys (none once ys is exhausted). */
  lemma SequenceStepAt(xs: seq<Item>, ys: seq<Item>, k: nat, bp: nat, eq: AtomicEq, y: Option<Item>, e: Result<bool>)
    requires k < |xs| && bp <= |ys|
    requires y == (if bp < |ys| then Some(ys[bp]) else None) && e == ItemDeepEquals(xs[k], y, eq)
    ensures SequenceDeepEquals(xs[k..], ys[bp..], eq) ==
              if e.Err? || !e.value then e else SequenceDeepEquals(xs[k + 1..], ys[if bp < |ys| then bp + 1 else bp..], eq)
  {
    SequenceStep(xs[k..], ys[bp..], eq);
    assert xs[k..][1..] == xs[k + 1..];
    if bp < |ys| {
      assert ys[bp..][1..] == ys[bp + 1..];
    }
  }

  method DeepEqualsInStep(a: Sequence, b: Sequence, eq: AtomicEq) returns (r: Result<bool>)
    ensures r == SequenceDeepEquals(Items(a), Items(b), eq)
  {
    var aIt := Iterate(a);
    var bIt := Iterate(b);
    ghost var xs := aIt.items;
    ghost var ys := bIt.items;
    ghost var k := 0;
    var aItem := aIt.Next();
    while aItem != None
      invariant aIt.Valid() && bIt.Valid() && aIt.items == xs && bIt.items == ys
      invariant k <= |xs| && (aItem == None ==> k == |xs|)
      invariant aItem != None ==> k < |xs| && aIt.pos == k + 1 && aItem.value == xs[k]
      invariant SequenceDeepEquals(xs, ys, eq) == SequenceDeepEquals(xs[k..], ys[bIt.pos..], eq)
      decreases |xs| - k
    {
      ghost var bp := bIt.pos;
      var bItem := bIt.Next();
      var same := ItemDeepEquals(aItem.value, bItem, eq);
      SequenceStepAt(xs, ys, k, bp, eq, bItem, same);
      if same.Err? || !same.value {
        aIt.Close();
        bIt.Close();
        return same;
      }
      aItem := aIt.Next();
      k := k + 1;
    }
    var bItem := bIt.Next();
    aIt.Close();
    bIt.Close();
    r := Ok(bItem == None);
  }

  /** execute: a third argument must name the codepoint collation. */
  method Execute(a: Sequence, b: Sequence, collation: Option<string>, eq: AtomicEq) returns (r: Result<bool>)
    ensures collation.Some? && collation.value != CodepointCollation ==> r == Err(ErrUnsupportedCollation)
    ensures collation.None? || collation.value == CodepointCollation ==> r == SequenceDeepEquals(Items(a), Items(b), eq)
  {
    if collation.Some? && collation.value != CodepointCollation {
      return Err(ErrUnsupportedCollation);
    }
    r := DeepEquals(a, b, eq);
  }

  /** attributesDeepEqual: a's attributes are copied into an array grown by half
    * its length plus one; each of b's attributes is then searched for there. */
  method AttributesDeepEqual(ach: seq<Node>, bch: seq<Node>) returns (r: bool)
    ensures r == AttributesMatch(ach, bch)
  {
    var all: array<Node> := new Node[0];
    var aSize := 0;
    while aSize < |ach|
      invariant 0 <= aSize <= |ach| && aSize <= all.Length && fresh(all)
      invariant all[..aSize] == ach[..aSize]
    {
      if aSize == all.Length {
        var grown := new Node[all.Length * 3 / 2 + 1](k => ach[0]);
        forall k | 0 <= k < aSize {
          grown[k] := all[k];
        }
        all := grown;
      }
      all[aSize] := ach[aSize];
      aSize := aSize + 1;
    }
    assert all[..aSize] == ach;
    var bSize := 0;
    while bSize < |bch|
      invariant 0 <= bSize <= |bch|
      invariant aSize == |ach| && all[..aSize] == ach
      invariant forall j :: 0 <= j < bSize ==> HasMatch(ach, bch[j])
    {
      var matched := false;
      var i := 0;
      while i < aSize
        invariant 0 <= i <= aSize
        invariant forall k :: 0 <= k < i ==> !SameAttribute(ach[k], bch[bSize])
      {
        if all[i].name == bch[bSize].name && all[i].value == bch[bSize].value {
          assert all[i] == ach[i];
          assert SameAttribute(ach[i], bch[bSize]);
          assert HasMatch(ach, bch[bSize]);
          matched := true;
          break;
        }
        i := i + 1;
      }
      if !matched {
        assert !HasMatch(ach, bch[bSize]);
        return false;
      }
      bSize := bSize + 1;
    }
    r := aSize == bSize;
  }
}
