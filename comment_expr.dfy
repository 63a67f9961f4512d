// The computed comment constructor (section 3.7.3.6 of XQuery 1.0): the
// content string must not contain "--" or end in "-"; the comment is then
// either appended to the node in the tuple's last slot or returned.

module CommentExpr {
  import opened Base
  import opened Jdm
  import opened Exprs
  import opened Constructed

  /** The comment node holding the content. */
  function CommentNode(content: string): Node
  {
    Node(Comment, None, Atomic(StringType, content), [], [])
  }

  /** evaluateToItem. */
  method EvaluateToItem(expr: Expr, sv: StringValue, appendOnly: bool, slot: LastSlot) returns (r: Result<Option<Item>>)
    modifies if slot.NodeRef? then {slot.target} else {}
    ensures var c := ContentOf(expr.result, sv);
            (IllegalCommentText(c) ==> r == Err(ErrCommentWouldContainIllegalHyphens)) &&
            (!IllegalCommentText(c) && !appendOnly ==> r == Ok(Some(NodeItem(CommentNode(c))))) &&
            (!IllegalCommentText(c) && appendOnly && !slot.NodeRef? ==> r == Err(SlotError(slot))) &&
            (!IllegalCommentText(c) && appendOnly && slot.NodeRef? ==>
               r == Ok(None) && slot.target.children == old(slot.target.children) + [CommentNode(c)])
    ensures slot.NodeRef? && (IllegalCommentText(ContentOf(expr.result, sv)) || !appendOnly) ==>
              slot.target.children == old(slot.target.children)
    ensures slot.NodeRef? ==> slot.target.attributes == old(slot.target.attributes)
  {
    var content, _ := BuildContent(expr.result, sv);
    if Contains(content, "--") || EndsWith(content, "-") {
      return Err(ErrCommentWouldContainIllegalHyphens);
    }
    if appendOnly {
      if !slot.NodeRef? {
        return Err(SlotError(slot));
      }
      slot.target.Append(Comment, None, Atomic(StringType, content));
      return Ok(None);
    }
    r := Ok(Some(NodeItem(CommentNode(content))));
  }

  /** isUpdating: that of the content expression. */
  function IsUpdating(expr: Expr): (r: bool)
    ensures r <==> expr.updating
  {
    expr.updating
  }

  /** isVacuous: a constructor always builds a node. */
  function IsVacuous(expr: Expr): (r: bool)
    ensures !r
  {
    false
  }
}
