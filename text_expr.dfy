// The computed text constructor (section 3.7.3.4 of XQuery 1.0): the same
// content string as the comment constructor, without any check on it.

module TextExpr {
  import opened Base
  import opened Jdm
  import opened Exprs
  import opened Constructed

  /** The text node the node factory builds, holding the content untyped. */
  function TextNode(content: string): Node
  {
    Node(Text, None, Atomic(UntypedAtomic, content), [], [])
  }

  /** evaluateToItem: every content is accepted. */
  method EvaluateToItem(expr: Expr, sv: StringValue, appendOnly: bool, slot: LastSlot) returns (r: Result<Option<Item>>)
    modifies if slot.NodeRef? then {slot.target} else {}
    ensures var c := ContentOf(expr.result, sv);
            (!appendOnly ==> r == Ok(Some(NodeItem(TextNode(c))))) &&
            (appendOnly && !slot.NodeRef? ==> r == Err(SlotError(slot))) &&
            (appendOnly && slot.NodeRef? ==>
               r == Ok(None) &&
               slot.target.children == old(slot.target.children) + [Node(Text, None, Atomic(StringType, c), [], [])])
    ensures slot.NodeRef? && !appendOnly ==> slot.target.children == old(slot.target.children)
    ensures slot.NodeRef? ==> slot.target.attributes == old(slot.target.attributes)
  {
    var content, _ := BuildContent(expr.result, sv);
    if appendOnly {
      if !slot.NodeRef? {
        return Err(SlotError(slot));
      }
      slot.target.Append(Text, None, Atomic(StringType, content));
      return Ok(None);
    }
    r := Ok(Some(NodeItem(TextNode(content))));
  }

  /** isUpdating: that of the content expression. */
  function IsUpdating(expr: Expr): (r: bool)
    ensures r <==> expr.updating
  {
    expr.updating
  }

  /** isVacuous: a constructor always builds a node. */
  function IsVacuous(expr: Expr): (r: bool)
    ensures !r
  {
    false
  }
}
