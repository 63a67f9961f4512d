// Join recognition: a selection whose predicate compares two expressions
// that depend on different, non-overlapping parts of the pipeline is
// rewritten into a join node with a left input, a right input, an empty
// post pipeline and the selection's continuation.
//
// Scopes are ranked by their position in the pipeline (Scope.compareTo) and
// carry the id of the AST node that opens them and of that node's parent.
// The selection's ancestors are given bottom-up as a path of nodes with ids.

module JoinRewriter {
  import opened Base
  import opened XQ
  import CmpUtil

  datatype Scope = Scope(rank: int, node: nat, parent: nat)

  /** What visit does with a node. */
  datatype Outcome =
    | Unchanged
    | Rewritten(join: AST, rightInRoot: nat)   // rightInRoot: index on the ancestor path

  // ---------------------------------------------------------------------
  // Trimming the overlap of the two scope lists

  /** The loop that trims overlapping scopes, from positions p1 / p2 with the
    * last trimmed scope s0End: the positions at which it breaks, or None when
    * one of the lists runs out (the selection stays). */
  function Trim(s1: seq<Scope>, s2: seq<Scope>, p1: nat, p2: nat, s0End: Option<Scope>): (r: Option<(nat, nat)>)
    requires p1 < |s1| && p2 < |s2|
    ensures r.Some? ==> p1 <= r.value.0 < |s1| && p2 <= r.value.1 < |s2|
    decreases |s1| - p1 + |s2| - p2
  {
    if s1[p1].rank >= s2[p2].rank then
      if p1 + 1 == |s1| then None else Trim(s1, s2, p1 + 1, p2, Some(s1[p1]))
    else if s0End.Some? && s2[p2].rank >= s0End.value.rank then
      if p2 + 1 == |s2| then None else Trim(s1, s2, p1, p2 + 1, Some(s2[p2]))
    else Some((p1, p2))
  }

  /** Where trimming stops, the remaining left part begins strictly before the
    * remaining right part. */
  lemma {:induction false} TrimSeparates(s1: seq<Scope>, s2: seq<Scope>, p1: nat, p2: nat, s0End: Option<Scope>)
    requires p1 < |s1| && p2 < |s2|
    requires Trim(s1, s2, p1, p2, s0End).Some?
    ensures var (q1, q2) := Trim(s1, s2, p1, p2, s0End).value; s1[q1].rank < s2[q2].rank
    decreases |s1| - p1 + |s2| - p2
  {
    if s1[p1].rank >= s2[p2].rank {
      TrimSeparates(s1, s2, p1 + 1, p2, Some(s1[p1]));
    } else if s0End.Some? && s2[p2].rank >= s0End.value.rank {
      TrimSeparates(s1, s2, p1, p2 + 1, Some(s2[p2]));
    }
  }

  /** A left side whose every scope precedes every scope of the right side needs no trimming. */
  lemma DisjointNeedsNoTrim(s1: seq<Scope>, s2: seq<Scope>)
    requires |s1| > 0 && |s2| > 0
    requires forall i, j :: 0 <= i < |s1| && 0 <= j < |s2| ==> s1[i].rank < s2[j].rank
    ensures Trim(s1, s2, 0, 0, None) == Some((0, 0))
  {
  }

  /** A left side that begins at or after the right side's last scope never joins. */
  lemma {:induction false} LeftAfterRightNeverJoins(s1: seq<Scope>, s2: seq<Scope>, p1: nat, p2: nat, s0End: Option<Scope>)
    requires p1 < |s1| && p2 < |s2|
    requires forall i :: p1 <= i < |s1| ==> s1[i].rank >= s2[|s2| - 1].rank
    requires forall j :: 0 <= j < |s2| ==> s2[j].rank <= s2[|s2| - 1].rank
    ensures Trim(s1, s2, p1, p2, s0End) == None
    decreases |s1| - p1 + |s2| - p2
  {
    if s1[p1].rank >= s2[p2].rank {
      if p1 + 1 < |s1| {
        LeftAfterRightNeverJoins(s1, s2, p1 + 1, p2, Some(s1[p1]));
      }
    } else {
      assert false;
    }
  }

  /** The trimming loop of visit, run on the two scope lists. */
  method TrimOverlap(s1Scopes: seq<Scope>, s2Scopes: seq<Scope>) returns (r: Option<(nat, nat)>)
    requires |s1Scopes| > 0 && |s2Scopes| > 0
    ensures r == Trim(s1Scopes, s2Scopes, 0, 0, None)
  {
    var s1Pos, s2Pos := 0, 0;
    var s0End: Option<Scope> := None;
    var s1Begin, s2Begin := s1Scopes[s1Pos], s2Scopes[s2Pos];
    while true
      invariant s1Pos < |s1Scopes| && s2Pos < |s2Scopes|
      invariant s1Begin == s1Scopes[s1Pos] && s2Begin == s2Scopes[s2Pos]
      invariant Trim(s1Scopes, s2Scopes, s1Pos, s2Pos, s0End) == Trim(s1Scopes, s2Scopes, 0, 0, None)
      decreases |s1Scopes| - s1Pos + |s2Scopes| - s2Pos
    {
      if s1Begin.rank >= s2Begin.rank {
        s1Pos := s1Pos + 1;
        if s1Pos == |s1Scopes| {
          return None;
        }
        s0End := Some(s1Begin);
        s1Begin := s1Scopes[s1Pos];
      } else if s0End.Some? && s2Begin.rank >= s0End.value.rank {
        s2Pos := s2Pos + 1;
        if s2Pos == |s2Scopes| {
          return None;
        }
        s0End := Some(s2Begin);
        s2Begin := s2Scopes[s2Pos];
      } else {
        break;
      }
    }
    r := Some((s1Pos, s2Pos));
  }

  // ---------------------------------------------------------------------
  // Walking up to the node that opens the right side

  predicate IsBoundary(t: NodeType)
  {
    t == Start || t == Count || t == GroupBy || t == OrderBy
  }

  /** The ancestor walk of visit: the index of the ancestor with id `target`, or
    * None when a pipeline boundary (Start, Count, GroupBy, OrderBy) comes first;
    * walking past the root is a NullPointerException. */
  method FindRightInRoot(path: seq<AST>, pathIds: seq<nat>, target: nat) returns (r: Result<Option<nat>>)
    requires |pathIds| == |path|
    ensures r.Ok? && r.value.Some? ==> (var i := r.value.value;
              i < |path| && pathIds[i] == target && !IsBoundary(path[i].ty) &&
              forall k :: 0 <= k < i ==> !IsBoundary(path[k].ty) && pathIds[k] != target)
    ensures r.Ok? && r.value.None? ==>
              exists i :: (0 <= i < |path| && IsBoundary(path[i].ty) &&
                           forall k :: 0 <= k < i ==> !IsBoundary(path[k].ty) && pathIds[k] != target)
    ensures r.Err? ==> (r.error == NullPointer &&
              forall k :: 0 <= k < |path| ==> !IsBoundary(path[k].ty) && pathIds[k] != target)
  {
    var i := 0;
    while i < |path|
      invariant 0 <= i <= |path|
      invariant forall k :: 0 <= k < i ==> !IsBoundary(path[k].ty) && pathIds[k] != target
    {
      if IsBoundary(path[i].ty) {
        return Ok(None);
      } else if pathIds[i] == target {
        return Ok(Some(i));
      }
      i := i + 1;
    }
    r := Err(NullPointer);
  }

  // ---------------------------------------------------------------------
  // Building the join

  /** The pipeline nodes below path[i] follow each other as last children,
    * down to the selection. */
  predicate OnSpine(path: seq<AST>, i: nat, select: AST)
    requires i < |path|
  {
    (forall k :: 0 < k <= i ==> path[k].children != [] && path[k].children[|path[k].children| - 1] == path[k - 1]) &&
    path[0].children != [] && path[0].children[|path[0].children| - 1] == select
  }

  /** A copy of n whose last child is replaced by `next`. */
  function WithLast(n: AST, next: AST): (r: AST)
    requires n.children != []
    ensures r.ty == n.ty && r.props == n.props && |r.children| == |n.children|
    ensures r.children[..|r.children| - 1] == n.children[..|n.children| - 1]
    ensures r.children[|r.children| - 1] == next
  {
    AST(n.ty, n.props, n.children[..|n.children| - 1] + [next])
  }

  /** The copied section of the right pipeline from path[i] down to the
    * selection, which is replaced by End(s2Expr). */
  function CopyDown(path: seq<AST>, i: int, select: AST, s2Expr: AST): AST
    requires i < |path|
    requires i >= 0 ==> OnSpine(path, i, select)
    decreases i + 1
  {
    if i < 0 then Node1(End, s2Expr)
    else WithLast(path[i], CopyDown(path, i - 1, select, s2Expr))
  }

  function JoinProps(cmp: Cmp, isGCmp: bool, ordered: bool): map<string, Prop>
  {
    var m := map["cmp" := CmpProp(cmp), "GCmp" := BoolProp(isGCmp)];
    if ordered then m else m["skipSort" := BoolProp(true)]
  }

  /** convertToJoin: the join node that replaces path[j] (rightInRoot). */
  function JoinNode(path: seq<AST>, j: nat, select: AST, s1Expr: AST, s2Expr: AST,
                    cmp: Cmp, isGCmp: bool, ordered: bool): AST
    requires j < |path| && OnSpine(path, j, select) && select.children != []
  {
    AST(Join, JoinProps(cmp, isGCmp, ordered),
        [Node1(Start, Node1(End, s1Expr)),
         Node1(Start, CopyDown(path, j, select, s2Expr)),
         Node1(Start, Leaf(End)),
         select.children[|select.children| - 1]])
  }

  /** Following last children j + 1 times from the top of the copied right
    * pipeline passes the copies of path[j], ..., path[0] and reaches End(s2Expr). */
  lemma {:induction false} CopyDownFollowsPath(path: seq<AST>, i: int, select: AST, s2Expr: AST, k: nat)
    requires 0 <= i < |path| && OnSpine(path, i, select) && k <= i
    ensures Below(CopyDown(path, i, select, s2Expr), k).Some?
    ensures Below(CopyDown(path, i, select, s2Expr), k).value.ty == path[i - k].ty
    ensures Below(CopyDown(path, i, select, s2Expr), i + 1) == Some(Node1(End, s2Expr))
    decreases i
  {
    var next := CopyDown(path, i - 1, select, s2Expr);
    var c := WithLast(path[i], next);
    assert CopyDown(path, i, select, s2Expr) == c;
    BelowLast(c, next, i);
    if i > 0 {
      OnSpineShorter(path, i, select);
      var k' := if k == 0 then 0 else k - 1;
      CopyDownFollowsPath(path, i - 1, select, s2Expr, k');
      if k > 0 {
        BelowLast(c, next, k');
      }
    }
  }

  /** One step below a node is its last child. */
  lemma BelowLast(c: AST, next: AST, n: nat)
    requires c.children != [] && c.children[|c.children| - 1] == next
    ensures Below(c, n + 1) == Below(next, n)
  {
  }

  /** The spine condition for path[i] holds for path[i - 1]. */
  lemma OnSpineShorter(path: seq<AST>, i: nat, select: AST)
    requires 0 < i < |path| && OnSpine(path, i, select)
    ensures OnSpine(path, i - 1, select)
  {
  }

  /** The node reached by following last children n times. */
  function Below(a: AST, n: nat): Option<AST>
    decreases n
  {
    if n == 0 then Some(a)
    else if a.children == [] then None
    else Below(a.children[|a.children| - 1], n - 1)
  }

  /** The join has the four inputs of the source's layout and the properties
    * cmp and GCmp; skipSort is set exactly when ordering is not ordered. */
  lemma JoinShape(path: seq<AST>, j: nat, select: AST, s1Expr: AST, s2Expr: AST,
                  cmp: Cmp, isGCmp: bool, ordered: bool)
    requires j < |path| && OnSpine(path, j, select) && select.children != []
    ensures var n := JoinNode(path, j, select, s1Expr, s2Expr, cmp, isGCmp, ordered);
            n.ty == Join && |n.children| == 4 &&
            n.children[0] == Node1(Start, Node1(End, s1Expr)) &&
            n.children[1].ty == Start && Below(n.children[1], j + 2) == Some(Node1(End, s2Expr)) &&
            n.children[2] == Node1(Start, Leaf(End)) &&
            n.children[3] == select.children[|select.children| - 1] &&
            n.props["cmp"] == CmpProp(cmp) && n.props["GCmp"] == BoolProp(isGCmp) &&
            ("skipSort" in n.props <==> !ordered)
  {
    CopyDownFollowsPath(path, j, select, s2Expr, 0);
  }

  // ---------------------------------------------------------------------
  // visit

  predicate ExcludedComparison(t: NodeType)
  {
    t in {NodeCompFollows, NodeCompIs, NodeCompPrecedes, GeneralCompNE, ValueCompNE}
  }

  /** The largest scope rank of a non-empty scope list (the last, once sorted). */
  function LastRank(s: seq<Scope>): int
    requires s != []
  {
    s[|s| - 1].rank
  }

  /** A selection whose predicate is a comparison with an operator and two operands. */
  predicate ComparisonSelection(select: AST)
  {
    select.ty == Selection && select.children != [] &&
    select.children[0].ty == ComparisonExpr && |select.children[0].children| >= 3
  }

  /** The node type of the comparison's operator. */
  function OperatorOf(select: AST): NodeType
    requires ComparisonSelection(select)
  {
    select.children[0].children[0].ty
  }

  /** The first (k = 1) or second (k = 2) operand of the comparison. */
  function Operand(select: AST, k: nat): AST
    requires ComparisonSelection(select) && 1 <= k <= 2
  {
    select.children[0].children[k]
  }

  /** A selection visit goes on with: a supported operator other than the
    * excluded ones, and two operands that each refer to some variable. */
  predicate Candidate(select: AST, scopesOf: AST -> seq<Scope>)
  {
    ComparisonSelection(select) && !ExcludedComparison(OperatorOf(select)) &&
    CmpUtil.CmpOf(OperatorOf(select)).Ok? &&
    scopesOf(Operand(select, 1)) != [] && scopesOf(Operand(select, 2)) != []
  }

  /** The operands trade places when the second one's last scope comes first. */
  predicate Swapped(select: AST, scopesOf: AST -> seq<Scope>)
    requires Candidate(select, scopesOf)
  {
    LastRank(scopesOf(Operand(select, 2))) < LastRank(scopesOf(Operand(select, 1)))
  }

  /** The operand that becomes the join's left input. */
  function LeftExpr(select: AST, scopesOf: AST -> seq<Scope>): AST
    requires Candidate(select, scopesOf)
  {
    if Swapped(select, scopesOf) then Operand(select, 2) else Operand(select, 1)
  }

  /** The operand that becomes the join's right input. */
  function RightExpr(select: AST, scopesOf: AST -> seq<Scope>): AST
    requires Candidate(select, scopesOf)
  {
    if Swapped(select, scopesOf) then Operand(select, 1) else Operand(select, 2)
  }

  /** The join's operator: the comparison's, mirrored when the operands trade places. */
  function JoinCmp(select: AST, scopesOf: AST -> seq<Scope>): Cmp
    requires Candidate(select, scopesOf)
  {
    var c := CmpUtil.CmpOf(OperatorOf(select)).value;
    if Swapped(select, scopesOf) then Swap(c) else c
  }

  /** Where trimming the oriented scope lists stops, if it does. */
  function Trimmed(select: AST, scopesOf: AST -> seq<Scope>): Option<(nat, nat)>
    requires Candidate(select, scopesOf)
  {
    Trim(scopesOf(LeftExpr(select, scopesOf)), scopesOf(RightExpr(select, scopesOf)), 0, 0, None)
  }

  /** The id of the node that opens the trimmed right side. */
  function RightBegin(select: AST, scopesOf: AST -> seq<Scope>): nat
    requires Candidate(select, scopesOf) && Trimmed(select, scopesOf).Some?
  {
    scopesOf(RightExpr(select, scopesOf))[Trimmed(select, scopesOf).value.1].node
  }

  /** Walking up the path meets a pipeline boundary before the target. */
  predicate BoundaryFirst(path: seq<AST>, pathIds: seq<nat>, target: nat)
    requires |pathIds| == |path|
  {
    exists i :: 0 <= i < |path| && IsBoundary(path[i].ty) &&
      forall k :: 0 <= k < i ==> !IsBoundary(path[k].ty) && pathIds[k] != target
  }

  /** Walking up the path meets the target at j, with no boundary before it. */
  predicate TargetFirstAt(path: seq<AST>, pathIds: seq<nat>, target: nat, j: nat)
    requires |pathIds| == |path|
  {
    j < |path| && pathIds[j] == target && !IsBoundary(path[j].ty) &&
    forall k :: 0 <= k < j ==> !IsBoundary(path[k].ty) && pathIds[k] != target
  }

  /** After orientation the left input's last scope does not come after the
    * right input's, and where trimming stops the left remainder begins
    * strictly before the right one. */
  lemma Oriented(select: AST, scopesOf: AST -> seq<Scope>)
    requires Candidate(select, scopesOf)
    ensures LastRank(scopesOf(LeftExpr(select, scopesOf))) <= LastRank(scopesOf(RightExpr(select, scopesOf)))
    ensures Trimmed(select, scopesOf).Some? ==>
              var (q1, q2) := Trimmed(select, scopesOf).value;
              scopesOf(LeftExpr(select, scopesOf))[q1].rank < scopesOf(RightExpr(select, scopesOf))[q2].rank
  {
    if Trimmed(select, scopesOf).Some? {
      TrimSeparates(scopesOf(LeftExpr(select, scopesOf)), scopesOf(RightExpr(select, scopesOf)), 0, 0, None);
    }
  }

  /** visit(select). `scopesOf` gives the sorted scopes of the variables an
    * expression refers to (empty when it refers to none); `ordered` is the
    * ordering mode on top of the stack; path/pathIds are the selection's
    * ancestors, bottom-up. Every way through visit is stated: the cases that
    * return the selection unchanged, the failures, and the rewrite. */
  method Visit(select: AST, path: seq<AST>, pathIds: seq<nat>, scopesOf: AST -> seq<Scope>, ordered: bool)
    returns (r: Result<Outcome>)
    requires |pathIds| == |path|
    // not a selection, or not a comparison predicate
    ensures select.ty != Selection ==> r == Ok(Unchanged)
    ensures select.ty == Selection && select.children == [] ==> r == Err(ErrIllegalState)
    ensures (select.ty == Selection && select.children != [] && select.children[0].ty != ComparisonExpr) ==>
              r == Ok(Unchanged)
    ensures (select.ty == Selection && select.children != [] && select.children[0].ty == ComparisonExpr &&
             |select.children[0].children| < 3) ==> r == Err(ErrIllegalState)
    // node comparisons and != comparisons
    ensures ComparisonSelection(select) && ExcludedComparison(OperatorOf(select)) ==> r == Ok(Unchanged)
    // an operator that is no comparison: CmpUtil.cmp throws
    ensures (ComparisonSelection(select) && !ExcludedComparison(OperatorOf(select)) &&
             CmpUtil.CmpOf(OperatorOf(select)).Err?) ==> r == Err(IllegalArgument)
    // a static operand
    ensures (ComparisonSelection(select) && !ExcludedComparison(OperatorOf(select)) &&
             CmpUtil.CmpOf(OperatorOf(select)).Ok? &&
             (scopesOf(Operand(select, 1)) == [] || scopesOf(Operand(select, 2)) == [])) ==> r == Ok(Unchanged)
    // trimming exhausts one side
    ensures Candidate(select, scopesOf) && Trimmed(select, scopesOf).None? ==> r == Ok(Unchanged)
    // a pipeline boundary before the node opening the right side
    ensures (Candidate(select, scopesOf) && Trimmed(select, scopesOf).Some? &&
             BoundaryFirst(path, pathIds, RightBegin(select, scopesOf))) ==> r == Ok(Unchanged)
    // the walk up runs past the root
    ensures (Candidate(select, scopesOf) && Trimmed(select, scopesOf).Some? &&
             forall k :: 0 <= k < |path| ==> !IsBoundary(path[k].ty) && pathIds[k] != RightBegin(select, scopesOf)) ==>
              r == Err(NullPointer)
    // the node opening the right side is found: the join replaces it
    ensures forall j :: Candidate(select, scopesOf) && Trimmed(select, scopesOf).Some? &&
                        TargetFirstAt(path, pathIds, RightBegin(select, scopesOf), j) ==>
              r == if OnSpine(path, j, select)
                   then Ok(Rewritten(JoinNode(path, j, select, LeftExpr(select, scopesOf), RightExpr(select, scopesOf),
                                              JoinCmp(select, scopesOf), CmpUtil.IsGCmp(OperatorOf(select)), ordered), j))
                   else Err(NullPointer)
    // and a rewrite happens in no other case
    ensures r.Ok? && r.value.Rewritten? ==>
              Candidate(select, scopesOf) && Trimmed(select, scopesOf).Some? &&
              TargetFirstAt(path, pathIds, RightBegin(select, scopesOf), r.value.rightInRoot) &&
              OnSpine(path, r.value.rightInRoot, select)
  {
    if select.ty != Selection {
      return Ok(Unchanged);
    }
    if select.children == [] {
      return Err(ErrIllegalState);
    }
    var pred := select.children[0];
    if pred.ty != ComparisonExpr {
      return Ok(Unchanged);
    }
    if |pred.children| < 3 {
      return Err(ErrIllegalState);
    }
    var comparison := pred.children[0];
    if ExcludedComparison(comparison.ty) {
      return Ok(Unchanged);
    }
    var c := CmpUtil.CmpOf(comparison.ty);
    if c.Err? {
      return Err(c.error);
    }
    var cmp := c.value;
    var isGCmp := CmpUtil.IsGCmp(comparison.ty);

    var s1Expr := pred.children[1];
    var s1Scopes := scopesOf(s1Expr);
    if s1Scopes == [] {
      return Ok(Unchanged);
    }
    var s2Expr := pred.children[2];
    var s2Scopes := scopesOf(s2Expr);
    if s2Scopes == [] {
      return Ok(Unchanged);
    }
    assert Candidate(select, scopesOf);
    if LastRank(s2Scopes) < LastRank(s1Scopes) {
      s1Expr, s2Expr := s2Expr, s1Expr;
      s1Scopes, s2Scopes := s2Scopes, s1Scopes;
      cmp := Swap(cmp);
    }
    assert s1Expr == LeftExpr(select, scopesOf) && s2Expr == RightExpr(select, scopesOf);
    assert cmp == JoinCmp(select, scopesOf);

    var trimmed := TrimOverlap(s1Scopes, s2Scopes);
    if trimmed.None? {
      return Ok(Unchanged);
    }
    var s2Begin := s2Scopes[trimmed.value.1];
    assert s2Begin.node == RightBegin(select, scopesOf);

    var found := FindRightInRoot(path, pathIds, s2Begin.node);
    FirstStopUnique(path, pathIds, s2Begin.node);
    if found.Err? {
      return Err(found.error);
    }
    if found.value.None? {
      return Ok(Unchanged);
    }
    var j := found.value.value;
    assert TargetFirstAt(path, pathIds, s2Begin.node, j);
    var onSpine := SpineCheck(path, j, select);
    if !onSpine {
      // the copy loop follows last children and never meets the selection
      return Err(NullPointer);
    }
    r := Ok(Rewritten(JoinNode(path, j, select, s1Expr, s2Expr, cmp, isGCmp, ordered), j));
  }

  /** The upward walk stops at one place: the target at a single index, or a
    * boundary, never both. */
  lemma FirstStopUnique(path: seq<AST>, pathIds: seq<nat>, target: nat)
    requires |pathIds| == |path|
    ensures forall j, j' :: TargetFirstAt(path, pathIds, target, j) && TargetFirstAt(path, pathIds, target, j') ==> j == j'
    ensures forall j :: TargetFirstAt(path, pathIds, target, j) ==> !BoundaryFirst(path, pathIds, target)
  {
  }

  /** Decides OnSpine by walking the path. */
  method SpineCheck(path: seq<AST>, j: nat, select: AST) returns (b: bool)
    requires j < |path|
    ensures b <==> OnSpine(path, j, select)
  {
    if path[0].children == [] || path[0].children[|path[0].children| - 1] != select {
      return false;
    }
    var k := 1;
    while k <= j
      invariant 1 <= k <= j + 1
      invariant forall m :: 0 < m < k ==> path[m].children != [] && path[m].children[|path[m].children| - 1] == path[m - 1]
    {
      if path[k].children == [] || path[k].children[|path[k].children| - 1] != path[k - 1] {
        return false;
      }
      k := k + 1;
    }
    b := true;
  }

  // ---------------------------------------------------------------------
  // pushRightInput: where the right input is moved

  /** The last (largest) scope of the right input's references that precedes the join's scope. */
  function LastBefore(rScopes: seq<Scope>, joinScope: Scope): (r: Option<Scope>)
    ensures r.Some? ==> r.value in rScopes && r.value.rank < joinScope.rank
    ensures r.Some? ==> exists i :: 0 <= i < |rScopes| && rScopes[i] == r.value &&
                          forall k :: i < k < |rScopes| ==> rScopes[k].rank >= joinScope.rank
    ensures r.None? ==> forall s :: s in rScopes ==> s.rank >= joinScope.rank
    decreases |rScopes|
  {
    if rScopes == [] then None
    else if rScopes[|rScopes| - 1].rank < joinScope.rank then Some(rScopes[|rScopes| - 1])
    else LastBefore(rScopes[..|rScopes| - 1], joinScope)
  }

  /** The target id: the parent of the node opening the last left scope after the
    * target scope, or the target scope's node when there is none. */
  function AdjustTarget(lScopes: seq<Scope>, targetScope: Scope): (t: nat)
    ensures (exists k :: 0 <= k < |lScopes| && lScopes[k].rank > targetScope.rank) ==>
              exists i :: 0 <= i < |lScopes| && lScopes[i].rank > targetScope.rank && t == lScopes[i].parent &&
                forall k :: i < k < |lScopes| ==> lScopes[k].rank <= targetScope.rank
    ensures (forall k :: 0 <= k < |lScopes| ==> lScopes[k].rank <= targetScope.rank) ==> t == targetScope.node
    decreases |lScopes|
  {
    if lScopes == [] then targetScope.node
    else
      var last := lScopes[|lScopes| - 1];
      if last.rank > targetScope.rank then last.parent
      else AdjustTarget(lScopes[..|lScopes| - 1], targetScope)
  }

  /** The outcome of pushRightInput's set-up: the join stays where it is when the
    * left-input root found by walking up from the join (the first Start or the
    * target) has the join as its last child; otherwise that root is where the
    * pipeline section above the join is moved into the left input. */
  datatype PushOutcome = Stay | Relocate(leftInRoot: nat)

  /** joinPath/joinPathIds: the join's ancestors bottom-up; joinIsLastChild: the
    * join is its parent's last child. */
  method PushRightInput(rScopes: seq<Scope>, lScopes: seq<Scope>, joinScope: Scope,
                        joinPath: seq<AST>, joinPathIds: seq<nat>, joinIsLastChild: bool)
    returns (r: Result<PushOutcome>)
    requires |joinPathIds| == |joinPath|
    ensures r.Ok? ==> (var target := TargetOf(rScopes, lScopes, joinScope);
              exists i :: 0 <= i < |joinPath| && (joinPath[i].ty == Start || Some(joinPathIds[i]) == target) &&
                (forall k :: 0 <= k < i ==> joinPath[k].ty != Start && Some(joinPathIds[k]) != target) &&
                (r.value == Stay <==> i == 0 && joinIsLastChild) &&
                (r.value.Relocate? ==> r.value.leftInRoot == i))
    ensures r.Err? <==> forall i :: 0 <= i < |joinPath| ==>
                          joinPath[i].ty != Start && Some(joinPathIds[i]) != TargetOf(rScopes, lScopes, joinScope)
    ensures r.Err? ==> r.error == NullPointer
  {
    var target := TargetOf(rScopes, lScopes, joinScope);
    var i := 0;
    while i < |joinPath| && joinPath[i].ty != Start && Some(joinPathIds[i]) != target
      invariant 0 <= i <= |joinPath|
      invariant forall k :: 0 <= k < i ==> joinPath[k].ty != Start && Some(joinPathIds[k]) != target
    {
      i := i + 1;
    }
    if i == |joinPath| {
      return Err(NullPointer);
    }
    if i == 0 && joinIsLastChild {
      return Ok(Stay);
    }
    r := Ok(Relocate(i));
  }

  /** The node id the right input is pushed to: None stands for "the enclosing Start". */
  function TargetOf(rScopes: seq<Scope>, lScopes: seq<Scope>, joinScope: Scope): Option<nat>
  {
    match LastBefore(rScopes, joinScope)
    case None => None
    case Some(ts) => Some(AdjustTarget(lScopes, ts))
  }
}
