// The top-down optimizer's stage list and the walkers each of its own stages
// runs. Simplification and Finalize are inherited stages whose walkers are
// defined elsewhere; a walker's rewrite is a parameter.

module TopDownOptimizer {
  import opened Base
  import opened XQ

  datatype Stage = Simplification | Pipelining | Reordering | JoinRecognition | Unnest | FinalizePipeline | Finalize

  datatype Walker =
    | TopDownPipeline
    | PredicateSplit | SelectPullup
    | JoinRewriterWalker
    | LetBindToLeftJoin | LeftJoinLifting | LeftJoinRemoval | LeftJoinUnnesting | JoinToSelectConversion
    | PredicateMerge | TrivialLeftJoinRemoval | GroupByAggregates | JoinGroupDemarcation | PullEvaluation

  /** The walkers a stage of this optimizer runs, in order; None for the two
    * inherited stages. */
  function Walkers(s: Stage): Option<seq<Walker>>
  {
    match s
    case Pipelining => Some([TopDownPipeline])
    case Reordering => Some([PredicateSplit, SelectPullup])
    case JoinRecognition => Some([JoinRewriterWalker])
    case Unnest => Some([LetBindToLeftJoin, LeftJoinLifting, LeftJoinRemoval, LeftJoinUnnesting, JoinToSelectConversion])
    case FinalizePipeline => Some([PredicateMerge, TrivialLeftJoinRemoval, GroupByAggregates, JoinGroupDemarcation, PullEvaluation])
    case _ => None
  }

  /** Runs walkers one after the other, each on the previous one's result. */
  function RunWalkers(ws: seq<Walker>, walk: (Walker, AST) -> AST, ast: AST): AST
    decreases |ws|
  {
    if ws == [] then ast else RunWalkers(ws[1..], walk, walk(ws[0], ast))
  }

  /** Running two walker lists in a row is running their concatenation. */
  lemma {:induction false} RunWalkersAppend(ws: seq<Walker>, vs: seq<Walker>, walk: (Walker, AST) -> AST, ast: AST)
    ensures RunWalkers(ws + vs, walk, ast) == RunWalkers(vs, walk, RunWalkers(ws, walk, ast))
    decreases |ws|
  {
    if ws == [] {
      assert ws + vs == vs;
    } else {
      assert (ws + vs)[1..] == ws[1..] + vs;
      RunWalkersAppend(ws[1..], vs, walk, walk(ws[0], ast));
    }
  }

  /** A stage's rewrite of an AST. */
  function Rewrite(s: Stage, walk: (Walker, AST) -> AST, ast: AST): Option<AST>
  {
    match Walkers(s)
    case None => None
    case Some(ws) => Some(RunWalkers(ws, walk, ast))
  }

  /** Reordering splits predicates first and pulls selections up afterwards;
    * unnesting ends with converting joins back to selections; the final
    * pipeline stage merges predicates first and pulls evaluation last. */
  lemma StageRewrites(walk: (Walker, AST) -> AST, ast: AST)
    ensures Rewrite(Reordering, walk, ast) == Some(walk(SelectPullup, walk(PredicateSplit, ast)))
    ensures Rewrite(Pipelining, walk, ast) == Some(walk(TopDownPipeline, ast))
    ensures Rewrite(JoinRecognition, walk, ast) == Some(walk(JoinRewriterWalker, ast))
    ensures Rewrite(Unnest, walk, ast) ==
              Some(walk(JoinToSelectConversion, walk(LeftJoinUnnesting, walk(LeftJoinRemoval,
                   walk(LeftJoinLifting, walk(LetBindToLeftJoin, ast))))))
    ensures Rewrite(FinalizePipeline, walk, ast) ==
              Some(walk(PullEvaluation, walk(JoinGroupDemarcation, walk(GroupByAggregates,
                   walk(TrivialLeftJoinRemoval, walk(PredicateMerge, ast))))))
  {
    var u := [LetBindToLeftJoin, LeftJoinLifting, LeftJoinRemoval, LeftJoinUnnesting, JoinToSelectConversion];
    assert u[1..][1..][1..][1..][1..] == [];
    var f := [PredicateMerge, TrivialLeftJoinRemoval, GroupByAggregates, JoinGroupDemarcation, PullEvaluation];
    assert f[1..][1..][1..][1..][1..] == [];
  }

  class Optimizer {
    var stages: seq<Stage>

    /** The constructor appends the stages in the source's order; join detection
      * and unnesting are the two switchable ones. */
    constructor (joinDetection: bool, unnest: bool)
      ensures |stages| == 5 + (if joinDetection then 1 else 0) + (if unnest then 1 else 0)
      ensures stages[..3] == [Simplification, Pipelining, Reordering]
      ensures stages[|stages| - 2..] == [FinalizePipeline, Finalize]
      ensures JoinRecognition in stages <==> joinDetection
      ensures Unnest in stages <==> unnest
      ensures joinDetection ==> stages[3] == JoinRecognition
      ensures unnest ==> stages[|stages| - 3] == Unnest
      ensures forall i, j :: 0 <= i < j < |stages| ==> stages[i] != stages[j]
    {
      stages := [];
      stages := stages + [Simplification];
      stages := stages + [Pipelining];
      stages := stages + [Reordering];
      if joinDetection {
        stages := stages + [JoinRecognition];
      }
      if unnest {
        stages := stages + [Unnest];
      }
      stages := stages + [FinalizePipeline];
      stages := stages + [Finalize];
    }
  }
}
