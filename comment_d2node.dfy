// A comment node of the d2linked store: its value is checked on creation and
// on every update, and kept as a string.

module CommentD2Node {
  import opened Base
  import opened Jdm
  import opened Constructed
  import opened D2Linked

  /** checkValue: the string value may not contain "--" nor end in "-"; an
    * accepted value is kept as a string. */
  function CheckValue(v: Atomic): (r: Result<Atomic>)
    ensures r.Err? <==> Contains(v.lexical, "--") || EndsWith(v.lexical, "-")
    ensures r.Err? ==> r.error == DocumentError
    ensures r.Ok? ==> r.value == Atomic(StringType, v.lexical)
  {
    if Contains(v.lexical, "--") then Err(DocumentError)
    else if EndsWith(v.lexical, "-") then Err(DocumentError)
    else Ok(Atomic(StringType, v.lexical))
  }

  /** A rejected value is exactly one in which some hyphen is followed by
    * another hyphen or by nothing. */
  lemma CheckValueRejects(v: Atomic)
    ensures CheckValue(v).Err? <==>
              exists k :: 0 <= k < |v.lexical| && v.lexical[k] == '-' && (k + 1 == |v.lexical| || v.lexical[k + 1] == '-')
  {
    IllegalCommentTextIff(v.lexical);
  }

  class CommentNode {
    /** The D2Node part: parent, division and fragment; its kind is COMMENT. */
    const node: D2Node
    var value: Atomic

    ghost predicate Valid()
      reads this
    {
      node.Valid() && node.kind == Comment && CheckValue(value) == Ok(value)
    }

    constructor (node: D2Node, value: Atomic)
      requires node.Valid() && node.kind == Comment && CheckValue(value) == Ok(value)
      ensures Valid() && this.node == node && this.value == value
    {
      this.node := node;
      this.value := value;
    }

    /** setValue: an accepted value replaces the old one; a rejected one
      * leaves it in place. */
    method SetValue(v: Atomic) returns (r: Result<()>)
      requires Valid()
      modifies this`value
      ensures Valid()
      ensures CheckValue(v).Err? ==> r == Err(DocumentError) && value == old(value)
      ensures CheckValue(v).Ok? ==> r == Ok(()) && value == Atomic(StringType, v.lexical)
    {
      var checked := CheckValue(v);
      if checked.Err? {
        return Err(checked.error);
      }
      value := checked.value;
      r := Ok(());
    }
  }

  /** The constructor: the D2Node part is built first (a root draws a fresh
    * fragment id), then the value is checked, so a rejected value still uses
    * up an id. */
  method NewCommentNode(parent: D2Node?, division: seq<int>, value: Atomic, ids: IdSequence) returns (r: Result<CommentNode>)
    requires parent != null ==> parent.Valid()
    requires division != [] && ids.Valid()
    modifies ids
    ensures ids.Valid()
    ensures r.Err? <==> CheckValue(value).Err?
    ensures r.Err? ==> r.error == DocumentError
    ensures r.Ok? ==> fresh(r.value) && r.value.Valid() && r.value.value == Atomic(StringType, value.lexical) &&
                      r.value.node.parent == parent && r.value.node.division == division
    ensures parent != null ==> ids.value == old(ids.value)
    ensures parent == null ==> ids.value == (if old(ids.value) == MaxInt then 1 else old(ids.value) + 1)
  {
    var base := new D2Node(parent, division, Comment, ids);
    var checked := CheckValue(value);
    if checked.Err? {
      return Err(checked.error);
    }
    var c := new CommentNode(base, checked.value);
    r := Ok(c);
  }

  /** The public constructor: a parentless comment with the first division. */
  method NewRootComment(value: Atomic, ids: IdSequence) returns (r: Result<CommentNode>)
    requires ids.Valid()
    modifies ids
    ensures ids.Valid()
    ensures r.Err? <==> CheckValue(value).Err?
    ensures r.Ok? ==> fresh(r.value) && r.value.Valid() && r.value.value == Atomic(StringType, value.lexical) &&
                      r.value.node.parent == null && r.value.node.division == First
  {
    r := NewCommentNode(null, First, value, ids);
  }
}
