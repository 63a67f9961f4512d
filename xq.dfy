// The compiler's abstract syntax tree: node types (the XQ token constants the
// core refers to), node properties, and the comparison operators.

module XQ {

  /** Comparison operators (the Cmp enum). */
  datatype Cmp = Eq | Ne | Lt | Le | Gt | Ge

  /** The operator that holds when the two operands trade places (Cmp.swap). */
  function Swap(c: Cmp): (r: Cmp)
    ensures r == Eq <==> c == Eq
    ensures r == Ne <==> c == Ne
  {
    match c
    case Eq => Eq
    case Ne => Ne
    case Lt => Gt
    case Le => Ge
    case Gt => Lt
    case Ge => Le
  }

  /** Swapping twice restores the operator. */
  lemma SwapInvolutive(c: Cmp)
    ensures Swap(Swap(c)) == c
  {
    match c
    case Eq =>
    case Ne =>
    case Lt =>
    case Le =>
    case Gt =>
    case Ge =>
  }

  datatype NodeType =
    | Selection | ComparisonExpr | Start | End | Join | Count | GroupBy | OrderBy
    | ValueCompEQ | ValueCompNE | ValueCompLT | ValueCompLE | ValueCompGT | ValueCompGE
    | GeneralCompEQ | GeneralCompNE | GeneralCompLT | GeneralCompLE | GeneralCompGT | GeneralCompGE
    | NodeCompIs | NodeCompPrecedes | NodeCompFollows
    | OtherType(tag: nat)

  datatype Prop = CmpProp(cmp: Cmp) | BoolProp(b: bool)

  /** An AST node with its properties and children. */
  datatype AST = AST(ty: NodeType, props: map<string, Prop>, children: seq<AST>)

  function Leaf(ty: NodeType): AST
  {
    AST(ty, map[], [])
  }

  function Node1(ty: NodeType, child: AST): AST
  {
    AST(ty, map[], [child])
  }
}
