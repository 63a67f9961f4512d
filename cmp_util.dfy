// Translation between comparison AST node types and comparison operators.

module CmpUtil {
  import opened Base
  import opened XQ

  /** cmp(node): the operator of a value or general comparison node; any other
    * node type is an IllegalArgumentException. */
  function CmpOf(t: NodeType): (r: Result<Cmp>)
    ensures r.Ok? <==> t in {ValueCompEQ, ValueCompNE, ValueCompLT, ValueCompLE, ValueCompGT, ValueCompGE,
                             GeneralCompEQ, GeneralCompNE, GeneralCompLT, GeneralCompLE, GeneralCompGT, GeneralCompGE}
    ensures r.Err? ==> r.error == IllegalArgument
  {
    match t
    case ValueCompEQ => Ok(Eq)
    case GeneralCompEQ => Ok(Eq)
    case ValueCompGE => Ok(Ge)
    case GeneralCompGE => Ok(Ge)
    case ValueCompLE => Ok(Le)
    case GeneralCompLE => Ok(Le)
    case ValueCompLT => Ok(Lt)
    case GeneralCompLT => Ok(Lt)
    case ValueCompGT => Ok(Gt)
    case GeneralCompGT => Ok(Gt)
    case ValueCompNE => Ok(Ne)
    case GeneralCompNE => Ok(Ne)
    case _ => Err(IllegalArgument)
  }

  /** type(cmp, isGCmp): the general or value comparison node type of an operator. */
  function TypeOf(c: Cmp, isGCmp: bool): (t: NodeType)
  {
    match c
    case Eq => if isGCmp then GeneralCompEQ else ValueCompEQ
    case Ge => if isGCmp then GeneralCompGE else ValueCompGE
    case Gt => if isGCmp then GeneralCompGT else ValueCompGT
    case Le => if isGCmp then GeneralCompLE else ValueCompLE
    case Lt => if isGCmp then GeneralCompLT else ValueCompLT
    case Ne => if isGCmp then GeneralCompNE else ValueCompNE
  }

  /** isGCmp(node): only the general comparisons other than != count. */
  function IsGCmp(t: NodeType): (r: bool)
  {
    t in {GeneralCompEQ, GeneralCompGE, GeneralCompGT, GeneralCompLE, GeneralCompLT}
  }

  /** type and cmp are inverse: an operator survives the round trip through its
    * node type, and so does every comparison node type. */
  lemma CmpTypeRoundTrip(c: Cmp, isGCmp: bool, t: NodeType)
    ensures CmpOf(TypeOf(c, isGCmp)) == Ok(c)
    ensures CmpOf(t).Ok? ==> TypeOf(CmpOf(t).value, t.GeneralCompEQ? || t.GeneralCompNE? || t.GeneralCompLT? ||
                                    t.GeneralCompLE? || t.GeneralCompGT? || t.GeneralCompGE?) == t
  {
  }

  /** isGCmp is true of exactly the general comparisons whose operator is not !=. */
  lemma IsGCmpOfType(c: Cmp, isGCmp: bool)
    ensures IsGCmp(TypeOf(c, isGCmp)) <==> isGCmp && c != Ne
  {
  }
}
