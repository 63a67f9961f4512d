// The data model the core works on: qualified names, atomic values, XML
// nodes as trees, JSON objects and arrays, and sequences in the four shapes
// the engine hands around (null, a lone item, an iterated stream, a nested
// sequence of sequences).

module Jdm {
  import opened Base

  /** A qualified name: namespace URI, prefix (both may be absent) and local name. */
  datatype QNm = QNm(nsURI: Option<string>, prefix: Option<string>, localName: string)

  /** Atomic types the core distinguishes; the rest carry a type code. */
  datatype AtomicType =
    | UntypedAtomic
    | StringType
    | QNameType
    | IntegerType
    | OtherAtomicType(code: nat)

  /** An atomic value: its type and its canonical lexical form (its string value). */
  datatype Atomic = Atomic(ty: AtomicType, lexical: string)

  datatype Kind = Document | Element | Attribute | Text | Comment | ProcessingInstruction | Namespace

  /** An XML node as a value tree; `value` is what getValue() returns. */
  datatype Node = Node(kind: Kind, name: Option<QNm>, value: Atomic, attributes: seq<Node>, children: seq<Node>)

  datatype Item =
    | AtomicItem(atomic: Atomic)
    | NodeItem(node: Node)
    | ObjectItem(fieldNames: seq<Item>)   // a JSON object, seen through its field names
    | ArrayItem(values: seq<Sequence>)    // a JSON array of member sequences

  datatype Sequence =
    | Null                                      // Java null: the empty sequence
    | ItemValue(item: Item)                     // a sequence that is itself an item
    | Stream(items: seq<Item>, flattening: bool) // a sequence reached through an iterator
    | Nested(parts: seq<Sequence>)              // a NestedSequence of parts

  /** The items a sequence's iterator yields, in order. */
  function Items(s: Sequence): seq<Item>
    decreases s
  {
    match s
    case Null => []
    case ItemValue(i) => [i]
    case Stream(xs, _) => xs
    case Nested(ps) => ItemsOfAll(ps)
  }

  /** The items of several sequences, one after the other. */
  function ItemsOfAll(ps: seq<Sequence>): seq<Item>
    decreases ps
  {
    if ps == [] then [] else Items(ps[0]) + ItemsOfAll(ps[1..])
  }

  lemma {:induction false} ItemsOfAllAppend(ps: seq<Sequence>, qs: seq<Sequence>)
    ensures ItemsOfAll(ps + qs) == ItemsOfAll(ps) + ItemsOfAll(qs)
  {
    if ps == [] {
      assert ps + qs == qs;
    } else {
      assert (ps + qs)[1..] == ps[1..] + qs;
      ItemsOfAllAppend(ps[1..], qs);
    }
  }

  /** The item type of an item, as a context item's type is recorded. */
  datatype ItemType = AtomicItemType(ty: AtomicType) | NodeItemType(kind: Kind) | ObjectItemType | ArrayItemType

  function TypeOf(i: Item): ItemType
  {
    match i
    case AtomicItem(a) => AtomicItemType(a.ty)
    case NodeItem(n) => NodeItemType(n.kind)
    case ObjectItem(_) => ObjectItemType
    case ArrayItem(_) => ArrayItemType
  }

  /** An open iterator over a sequence; `isClosed` records that close() ran. */
  class Iter {
    const items: seq<Item>
    var pos: nat
    var isClosed: bool

    ghost predicate Valid()
      reads this
    {
      pos <= |items|
    }

    constructor (xs: seq<Item>)
      ensures items == xs && pos == 0 && !isClosed && Valid()
    {
      items := xs;
      pos := 0;
      isClosed := false;
    }

    /** The next item, or None (Java null) once the items are exhausted. */
    method Next() returns (r: Option<Item>)
      requires Valid()
      modifies this`pos
      ensures Valid()
      ensures old(pos) < |items| ==> r == Some(items[old(pos)]) && pos == old(pos) + 1
      ensures old(pos) == |items| ==> r == None && pos == old(pos)
    {
      if pos < |items| {
        r := Some(items[pos]);
        pos := pos + 1;
      } else {
        r := None;
      }
    }

    method Close()
      modifies this`isClosed
      ensures isClosed
    {
      isClosed := true;
    }
  }

  /** Sequence.iterate(): a fresh iterator positioned before the first item. */
  method Iterate(s: Sequence) returns (it: Iter)
    ensures fresh(it) && it.Valid() && it.items == Items(s) && it.pos == 0 && !it.isClosed
  {
    it := new Iter(Items(s));
  }
}
