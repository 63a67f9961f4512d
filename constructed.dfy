// What the computed comment and text constructors share: building the
// content string from the content sequence, the comment-hyphen rule, and the
// node in a tuple's last slot that append-only constructors extend in place.

module Constructed {
  import opened Base
  import opened Jdm

  /** item.atomize().stringValue(). */
  type StringValue = Item -> string

  /** The non-empty string values of the items, in order. */
  function NonEmptyStrings(items: seq<Item>, sv: StringValue): (r: seq<string>)
    ensures |r| <= |items|
    ensures forall k :: 0 <= k < |r| ==> r[k] != []
    decreases |items|
  {
    if items == [] then []
    else
      var init := NonEmptyStrings(items[..|items| - 1], sv);
      var s := sv(items[|items| - 1]);
      if s == [] then init else init + [s]
  }

  /** The content: "" for null, the string value of a lone item, and otherwise
    * the non-empty string values separated by single spaces. */
  function ContentOf(s: Sequence, sv: StringValue): string
  {
    match s
    case Null => ""
    case ItemValue(i) => sv(i)
    case _ => JoinWith(" ", NonEmptyStrings(Items(s), sv))
  }

  /** The content is empty exactly when every item's string value is empty, so a
    * one-item sequence gives the same content as the item itself. */
  lemma {:induction false} ContentEmptyIff(items: seq<Item>, sv: StringValue)
    ensures JoinWith(" ", NonEmptyStrings(items, sv)) == [] <==> forall k :: 0 <= k < |items| ==> sv(items[k]) == []
    decreases |items|
  {
    var ne := NonEmptyStrings(items, sv);
    if items != [] {
      var init := items[..|items| - 1];
      ContentEmptyIff(init, sv);
      if ne != [] {
        JoinNonEmpty(ne);
      }
      if forall k :: 0 <= k < |items| ==> sv(items[k]) == [] {
        assert forall k :: 0 <= k < |init| ==> sv(init[k]) == [] by {
          forall k | 0 <= k < |init| ensures sv(init[k]) == [] {
            assert init[k] == items[k];
          }
        }
      }
      if JoinWith(" ", ne) == [] {
        assert ne == [];
        forall k | 0 <= k < |items| ensures sv(items[k]) == [] {
          if k < |init| {
            assert items[k] == init[k];
          }
        }
      }
    }
  }

  lemma {:induction false} JoinNonEmpty(parts: seq<string>)
    requires parts != [] && parts[0] != []
    ensures JoinWith(" ", parts) != []
  {
  }

  lemma OneItemContent(i: Item, f: bool, sv: StringValue)
    ensures ContentOf(Stream([i], f), sv) == ContentOf(ItemValue(i), sv)
  {
    assert [i][..0] == [];
  }

  /** The StringBuilder loop of evaluateToItem: a space goes before every
    * non-empty string value except the first; the iterator is closed. */
  method BuildContent(s: Sequence, sv: StringValue) returns (content: string, it: Iter?)
    ensures content == ContentOf(s, sv)
    ensures it == null <==> (s.Null? || s.ItemValue?)
    ensures it != null ==> fresh(it) && it.isClosed
  {
    if s.Null? {
      return "", null;
    } else if s.ItemValue? {
      return sv(s.item), null;
    }
    var buf := "";
    var first := true;
    it := Iterate(s);
    ghost var xs := it.items;
    ghost var k := 0;
    var item := it.Next();
    while item != None
      invariant it.Valid() && it.items == xs && !it.isClosed
      invariant k <= |xs| && (item == None ==> k == |xs|)
      invariant item != None ==> k < |xs| && it.pos == k + 1 && item.value == xs[k]
      invariant first <==> NonEmptyStrings(xs[..k], sv) == []
      invariant buf == JoinWith(" ", NonEmptyStrings(xs[..k], sv))
      decreases |xs| - k
    {
      var str := sv(item.value);
      BuildStep(xs, k, sv, buf, first);
      if str != [] {
        if !first {
          buf := buf + " ";
        }
        first := false;
        buf := buf + str;
      }
      item := it.Next();
      k := k + 1;
    }
    assert xs[..k] == xs;
    it.Close();
    content := buf;
  }

  /** One round of the StringBuilder loop keeps buf the joined non-empty
    * string values read so far, and `first` their absence. */
  lemma BuildStep(xs: seq<Item>, k: nat, sv: StringValue, buf: string, first: bool)
    requires k < |xs|
    requires first <==> NonEmptyStrings(xs[..k], sv) == []
    requires buf == JoinWith(" ", NonEmptyStrings(xs[..k], sv))
    ensures var str := sv(xs[k]);
            var after := NonEmptyStrings(xs[..k + 1], sv);
            ((first && str == []) <==> after == []) &&
            (if str == [] then buf else if first then str else (buf + " ") + str) == JoinWith(" ", after)
  {
    var before := NonEmptyStrings(xs[..k], sv);
    var str := sv(xs[k]);
    NonEmptyStringsStep(xs, k, sv);
    if str != [] && !first {
      JoinWithSnoc(" ", before, str);
    }
  }

  /** One more item adds its string value when that is not empty. */
  lemma NonEmptyStringsStep(xs: seq<Item>, k: nat, sv: StringValue)
    requires k < |xs|
    ensures var before := NonEmptyStrings(xs[..k], sv);
            NonEmptyStrings(xs[..k + 1], sv) == if sv(xs[k]) == [] then before else before + [sv(xs[k])]
  {
    assert xs[..k + 1][..k] == xs[..k];
  }

  /** A comment may contain neither "--" nor end in "-". */
  predicate IllegalCommentText(s: string)
  {
    Contains(s, "--") || EndsWith(s, "-")
  }

  /** Equivalently: some hyphen is followed by another hyphen or by nothing. */
  lemma IllegalCommentTextIff(s: string)
    ensures IllegalCommentText(s) <==> exists k :: 0 <= k < |s| && s[k] == '-' && (k + 1 == |s| || s[k + 1] == '-')
  {
    if Contains(s, "--") {
      var k :| 0 <= k <= |s| - 2 && OccursAt(s, "--", k);
      assert s[k] == s[k..k + 2][0];
      assert s[k + 1] == s[k..k + 2][1];
    }
    if EndsWith(s, "-") {
      assert s[|s| - 1] == s[|s| - 1..][0];
    }
    if exists k :: 0 <= k < |s| && s[k] == '-' && (k + 1 == |s| || s[k + 1] == '-') {
      var k :| 0 <= k < |s| && s[k] == '-' && (k + 1 == |s| || s[k + 1] == '-');
      if k + 1 == |s| {
        assert s[|s| - 1..] == "-";
      } else {
        assert s[k..k + 2] == "--";
        assert OccursAt(s, "--", k);
      }
    }
  }

  /** A node whose attributes and children are changed in place (the node the
    * last slot of a tuple holds, for append-only constructors). */
  class MutableNode {
    var attributes: seq<Node>
    var children: seq<Node>

    constructor (attributes: seq<Node>, children: seq<Node>)
      ensures this.attributes == attributes && this.children == children
    {
      this.attributes := attributes;
      this.children := children;
    }

    /** append(kind, name, value): a new last child. */
    method Append(kind: Kind, name: Option<QNm>, value: Atomic)
      modifies this`children
      ensures children == old(children) + [Node(kind, name, value, [], [])]
    {
      children := children + [Node(kind, name, value, [], [])];
    }

    /** setAttribute(name, value): replaces the attribute of that name, or adds one. */
    method SetAttribute(name: QNm, value: Atomic)
      modifies this`attributes
      ensures attributes == WithAttribute(old(attributes), Node(Attribute, Some(name), value, [], []))
    {
      attributes := WithAttribute(attributes, Node(Attribute, Some(name), value, [], []));
    }
  }

  /** The attribute list after setting `a`: an attribute of the same name is
    * replaced, otherwise `a` is added at the end. */
  function WithAttribute(attrs: seq<Node>, a: Node): (r: seq<Node>)
    ensures a in r
    ensures |r| == |attrs| || r == attrs + [a]
    ensures forall k :: 0 <= k < |attrs| && attrs[k].name != a.name ==> attrs[k] in r
    decreases |attrs|
  {
    if attrs == [] then [a]
    else if attrs[0].name == a.name then [a] + attrs[1..]
    else
      var rest := WithAttribute(attrs[1..], a);
      assert forall k :: 1 <= k < |attrs| ==> attrs[k] == attrs[1..][k - 1];
      assert rest == attrs[1..] + [a] ==> [attrs[0]] + rest == attrs + [a];
      [attrs[0]] + rest
  }

  /** What the last slot of a tuple holds, as far as appending goes: null, a
    * value that is not a node, or a node. */
  datatype LastSlot = Empty | NotANode | NodeRef(target: MutableNode)

  /** The failure of the cast to Node before appending. */
  function SlotError(slot: LastSlot): ErrorCode
    requires !slot.NodeRef?
  {
    if slot.NotANode? then ClassCast else NullPointer
  }
}
