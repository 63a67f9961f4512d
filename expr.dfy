// A sub-expression of a compound expression, seen through what it does in the
// one dynamic context and tuple it is evaluated in: the sequence evaluate()
// returns, the item evaluateToItem() returns (or the error it raises), its
// static flags and its printed form.

module Exprs {
  import opened Base
  import opened Jdm
  import ExprUtil

  datatype Expr = Expr(result: Sequence, item: Result<Option<Item>>, updating: bool, vacuous: bool, text: string)

  /** evaluateToItem agrees with evaluate: the result taken as at most one
    * item, so two or more items are err:XPTY0004. */
  predicate ItemAgrees(e: Expr)
  {
    e.item == ExprUtil.AsItemOf(e.result)
  }
}
