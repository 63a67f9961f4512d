// The computed attribute constructor (section 3.7.3.2 of XQuery 1.0): the
// name may not be a namespace declaration and must agree with the reserved
// xml prefix; the value is the concatenated content of the value
// expressions; the attribute is then either set on the node in the tuple's
// last slot or returned.

module AttributeExpr {
  import opened Base
  import opened Jdm
  import opened Exprs
  import opened Constructed

  const XmlnsNamespace: string := "http://www.w3.org/2000/xmlns/"
  const XmlNamespace: string := "http://www.w3.org/XML/1998/namespace"

  /** The name operand: a literal QName, or an expression computing the name. */
  datatype NameExpr = Literal(name: QNm) | Computed(expr: Expr)

  /** buildAttributeName(sctx, item), which may fail. */
  type NameBuilder = Option<Item> -> Result<QNm>

  /** buildAttributeContent(sequence). */
  type ContentBuilder = Sequence -> string

  /** The name checks, in the order the source makes them. */
  function CheckName(name: QNm): (r: Result<QNm>)
    ensures r.Ok? ==> r.value == name
    ensures r.Err? ==> r.error == ErrIllegalNameOfConstructedAttribute
  {
    if name.prefix == Some("xmlns") then Err(ErrIllegalNameOfConstructedAttribute)
    else if name.prefix == None && name.localName == "xmlns" then Err(ErrIllegalNameOfConstructedAttribute)
    else if name.nsURI == Some(XmlnsNamespace) then Err(ErrIllegalNameOfConstructedAttribute)
    else if name.prefix == Some("xml") then
      if name.nsURI != Some(XmlNamespace) then Err(ErrIllegalNameOfConstructedAttribute) else Ok(name)
    else if name.nsURI == Some(XmlNamespace) then Err(ErrIllegalNameOfConstructedAttribute)
    else Ok(name)
  }

  /** A name is rejected exactly when it declares a namespace (prefix xmlns,
    * the bare name xmlns, or the xmlns namespace) or when the xml prefix and
    * the XML namespace do not go together. */
  lemma CheckNameRejects(name: QNm)
    ensures CheckName(name).Err? <==>
              name.prefix == Some("xmlns") ||
              (name.prefix == None && name.localName == "xmlns") ||
              name.nsURI == Some(XmlnsNamespace) ||
              ((name.prefix == Some("xml")) != (name.nsURI == Some(XmlNamespace)))
  {
  }

  /** The attribute name: the literal one, or the one built from the name
    * expression's item; then checked. */
  function AttributeName(nameExpr: NameExpr, build: NameBuilder): (r: Result<QNm>)
    ensures nameExpr.Literal? ==> r == CheckName(nameExpr.name)
    ensures nameExpr.Computed? && nameExpr.expr.item.Err? ==> r == Err(nameExpr.expr.item.error)
    ensures nameExpr.Computed? && nameExpr.expr.item.Ok? && build(nameExpr.expr.item.value).Err? ==>
              r == Err(build(nameExpr.expr.item.value).error)
    ensures nameExpr.Computed? && nameExpr.expr.item.Ok? && build(nameExpr.expr.item.value).Ok? ==>
              r == CheckName(build(nameExpr.expr.item.value).value)
  {
    match nameExpr
    case Literal(n) => CheckName(n)
    case Computed(e) =>
      match e.item
      case Err(err) => Err(err)
      case Ok(i) =>
        match build(i)
        case Err(err) => Err(err)
        case Ok(n) => CheckName(n)
  }

  /** The value: the content strings of the value expressions, in order and
    * without separator. */
  function AttributeValue(values: seq<Expr>, content: ContentBuilder): string
    decreases |values|
  {
    if values == [] then ""
    else AttributeValue(values[..|values| - 1], content) + content(values[|values| - 1].result)
  }

  /** The value of a split list is the value of its parts, one after the other. */
  lemma {:induction false} AttributeValueAppend(xs: seq<Expr>, ys: seq<Expr>, content: ContentBuilder)
    ensures AttributeValue(xs + ys, content) == AttributeValue(xs, content) + AttributeValue(ys, content)
    decreases |ys|
  {
    if ys == [] {
      assert xs + ys == xs;
    } else {
      var init := ys[..|ys| - 1];
      AttributeValueAppend(xs, init, content);
      assert (xs + ys)[..|xs + ys| - 1] == xs + init;
    }
  }

  /** The loop building the value. */
  method BuildValue(values: seq<Expr>, content: ContentBuilder) returns (s: string)
    ensures s == AttributeValue(values, content)
  {
    s := "";
    for k := 0 to |values|
      invariant s == AttributeValue(values[..k], content)
    {
      assert values[..k + 1][..k] == values[..k];
      s := s + content(values[k].result);
    }
    assert values[..|values|] == values;
  }

  /** The attribute node returned outside append-only mode. */
  function AttributeNode(name: QNm, value: string): Node
  {
    Node(Attribute, Some(name), Atomic(StringType, value), [], [])
  }

  /** evaluateToItem. */
  method EvaluateToItem(nameExpr: NameExpr, values: seq<Expr>, build: NameBuilder, content: ContentBuilder,
                        appendOnly: bool, slot: LastSlot) returns (r: Result<Option<Item>>)
    modifies if slot.NodeRef? then {slot.target} else {}
    ensures var name := AttributeName(nameExpr, build);
            var v := AttributeValue(values, content);
            (name.Err? ==> r == Err(name.error)) &&
            (name.Ok? && !appendOnly ==> r == Ok(Some(NodeItem(AttributeNode(name.value, v))))) &&
            (name.Ok? && appendOnly && !slot.NodeRef? ==> r == Err(SlotError(slot))) &&
            (name.Ok? && appendOnly && slot.NodeRef? ==>
               r == Ok(None) &&
               slot.target.attributes == WithAttribute(old(slot.target.attributes),
                                                       Node(Attribute, Some(name.value), Atomic(UntypedAtomic, v), [], [])))
    ensures slot.NodeRef? && (AttributeName(nameExpr, build).Err? || !appendOnly) ==>
              slot.target.attributes == old(slot.target.attributes)
    ensures slot.NodeRef? ==> slot.target.children == old(slot.target.children)
  {
    var name: QNm;
    if nameExpr.Literal? {
      name := nameExpr.name;
    } else {
      var item := nameExpr.expr.item;
      if item.Err? {
        return Err(item.error);
      }
      var built := build(item.value);
      if built.Err? {
        return Err(built.error);
      }
      name := built.value;
    }
    var checked := CheckName(name);
    if checked.Err? {
      return Err(checked.error);
    }
    var stringValue := BuildValue(values, content);
    if appendOnly {
      if !slot.NodeRef? {
        return Err(SlotError(slot));
      }
      slot.target.SetAttribute(name, Atomic(UntypedAtomic, stringValue));
      return Ok(None);
    }
    r := Ok(Some(NodeItem(AttributeNode(name, stringValue))));
  }

  /** Whether the name operand is updating: a literal name never is. */
  function NameUpdating(nameExpr: NameExpr): bool
  {
    nameExpr.Computed? && nameExpr.expr.updating
  }

  /** Some value expression is updating. */
  function AnyUpdating(values: seq<Expr>): (r: bool)
    ensures r <==> exists k :: 0 <= k < |values| && values[k].updating
  {
    if values == [] then false
    else
      assert forall k :: 1 <= k < |values| ==> values[k] == values[1..][k - 1];
      values[0].updating || AnyUpdating(values[1..])
  }

  /** isUpdating as the source has it: an updating name operand makes the
    * method call itself with the same receiver. `fuel` bounds the nesting of
    * calls; None means no answer within that bound. */
  function IsUpdatingAsWritten(nameExpr: NameExpr, values: seq<Expr>, fuel: nat): Option<bool>
    decreases fuel
  {
    if NameUpdating(nameExpr) then
      if fuel == 0 then None else IsUpdatingAsWritten(nameExpr, values, fuel - 1)
    else Some(AnyUpdating(values))
  }

  /** With an updating name operand the source's isUpdating gives no answer
    * however deep calls may nest: the recursion does not end. */
  lemma {:induction false} IsUpdatingAsWrittenNeverAnswers(nameExpr: NameExpr, values: seq<Expr>, fuel: nat)
    requires NameUpdating(nameExpr)
    ensures IsUpdatingAsWritten(nameExpr, values, fuel) == None
    decreases fuel
  {
    if fuel > 0 {
      IsUpdatingAsWrittenNeverAnswers(nameExpr, values, fuel - 1);
    }
  }

  /** isUpdating as evidently intended: the name operand or any value
    * expression is updating. */
  method IsUpdating(nameExpr: NameExpr, values: seq<Expr>) returns (r: bool)
    ensures r <==> NameUpdating(nameExpr) || exists k :: 0 <= k < |values| && values[k].updating
  {
    if NameUpdating(nameExpr) {
      return true;
    }
    for k := 0 to |values|
      invariant forall l :: 0 <= l < k ==> !values[l].updating
    {
      if values[k].updating {
        return true;
      }
    }
    return false;
  }

  /** Where the source answers, it agrees with the corrected isUpdating. */
  lemma IsUpdatingAgrees(nameExpr: NameExpr, values: seq<Expr>, fuel: nat)
    requires IsUpdatingAsWritten(nameExpr, values, fuel).Some?
    ensures IsUpdatingAsWritten(nameExpr, values, fuel) ==
              Some(NameUpdating(nameExpr) || exists k :: 0 <= k < |values| && values[k].updating)
  {
    if NameUpdating(nameExpr) {
      IsUpdatingAsWrittenNeverAnswers(nameExpr, values, fuel);
    }
  }
}
