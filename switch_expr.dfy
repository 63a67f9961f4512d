// The switch expression of XQuery 3.0: the atomized operand is compared by
// deep equality with each case's tests in order; the first match selects its
// case's return expression, and the default applies when nothing matches.

module SwitchExpr {
  import opened Base
  import opened Jdm
  import opened Exprs
  import ExprUtil
  import opened DeepEqual

  /** Item.atomize(), which may fail. */
  type Atomizer = Item -> Result<Atomic>

  /** The atomized value of what evaluateToItem gives: its error is raised,
    * null stays null, and an item is atomized. */
  function Atomized(i: Result<Option<Item>>, atomize: Atomizer): (r: Result<Sequence>)
    ensures i.Err? ==> r == Err(i.error)
    ensures i == Ok(None) ==> r == Ok(Null)
    ensures i.Ok? && i.value != None && atomize(i.value.value).Ok? ==>
              r == Ok(ItemValue(AtomicItem(atomize(i.value.value).value)))
    ensures i.Ok? && i.value != None && atomize(i.value.value).Err? ==> r == Err(atomize(i.value.value).error)
  {
    match i
    case Err(e) => Err(e)
    case Ok(None) => Ok(Null)
    case Ok(Some(x)) =>
      match atomize(x)
      case Err(e) => Err(e)
      case Ok(a) => Ok(ItemValue(AtomicItem(a)))
  }

  /** The tests of all cases in scanning order, each with its case's index; the
    * last expression of a case is its return expression, not a test. */
  function TestsFrom(cases: seq<seq<Expr>>, k: nat): seq<(nat, Expr)>
    requires k <= |cases|
    decreases |cases| - k
  {
    if k == |cases| then []
    else
      var c := cases[k];
      seq(if |c| == 0 then 0 else |c| - 1, l requires 0 <= l < |c| - 1 => (k, c[l])) + TestsFrom(cases, k + 1)
  }

  /** Comparing one test with the atomized operand: the test's own
    * evaluateToItem error, err:XPTY0004 for two or more items among them, is
    * raised before any comparison. */
  function TestMatches(oa: Sequence, test: Expr, atomize: Atomizer, eq: AtomicEq): (r: Result<bool>)
    ensures test.item.Err? ==> r == Err(test.item.error)
    ensures ItemAgrees(test) && |Items(test.result)| >= 2 ==> r == Err(ErrTypeInappropriateType)
  {
    match Atomized(test.item, atomize)
    case Err(e) => Err(e)
    case Ok(ca) => SequenceDeepEquals(Items(oa), Items(ca), eq)
  }

  /** The case of the first test that matches; tests after it are not looked at. */
  function FirstMatch(oa: Sequence, tests: seq<(nat, Expr)>, atomize: Atomizer, eq: AtomicEq): Result<Option<nat>>
    decreases |tests|
  {
    if tests == [] then Ok(None)
    else match TestMatches(oa, tests[0].1, atomize, eq)
      case Err(e) => Err(e)
      case Ok(m) => if m then Ok(Some(tests[0].0)) else FirstMatch(oa, tests[1..], atomize, eq)
  }

  /** The selected case is that of a matching test all of whose predecessors
    * did not match; no match at all means every test compared unequal. */
  lemma {:induction false} FirstMatchIsFirst(oa: Sequence, tests: seq<(nat, Expr)>, atomize: Atomizer, eq: AtomicEq)
    ensures forall k :: FirstMatch(oa, tests, atomize, eq) == Ok(Some(k)) ==>
              exists p :: 0 <= p < |tests| && tests[p].0 == k &&
                TestMatches(oa, tests[p].1, atomize, eq) == Ok(true) &&
                forall q :: 0 <= q < p ==> TestMatches(oa, tests[q].1, atomize, eq) == Ok(false)
    ensures FirstMatch(oa, tests, atomize, eq) == Ok(None) <==>
              forall q :: 0 <= q < |tests| ==> TestMatches(oa, tests[q].1, atomize, eq) == Ok(false)
    decreases |tests|
  {
    if tests != [] {
      FirstMatchIsFirst(oa, tests[1..], atomize, eq);
      var m := TestMatches(oa, tests[0].1, atomize, eq);
      if m == Ok(false) {
        forall k | FirstMatch(oa, tests, atomize, eq) == Ok(Some(k))
          ensures exists p :: 0 <= p < |tests| && tests[p].0 == k &&
                    TestMatches(oa, tests[p].1, atomize, eq) == Ok(true) &&
                    forall q :: 0 <= q < p ==> TestMatches(oa, tests[q].1, atomize, eq) == Ok(false)
        {
          var p :| 0 <= p < |tests[1..]| && tests[1..][p].0 == k &&
                   TestMatches(oa, tests[1..][p].1, atomize, eq) == Ok(true) &&
                   forall q :: 0 <= q < p ==> TestMatches(oa, tests[1..][q].1, atomize, eq) == Ok(false);
          assert tests[p + 1] == tests[1..][p];
          forall q | 0 <= q < p + 1
            ensures TestMatches(oa, tests[q].1, atomize, eq) == Ok(false)
          {
            if q > 0 {
              assert tests[q] == tests[1..][q - 1];
            }
          }
        }
        if forall q :: 0 <= q < |tests[1..]| ==> TestMatches(oa, tests[1..][q].1, atomize, eq) == Ok(false) {
          forall q | 0 <= q < |tests|
            ensures TestMatches(oa, tests[q].1, atomize, eq) == Ok(false)
          {
            if q > 0 {
              assert tests[q] == tests[1..][q - 1];
            }
          }
        }
      } else if m == Ok(true) {
        assert TestMatches(oa, tests[0].1, atomize, eq) == Ok(true);
      }
    }
  }

  /** evaluate: the return expression of the first matching case, or the default. */
  function Evaluate(operand: Expr, cases: seq<seq<Expr>>, dft: Expr, atomize: Atomizer, eq: AtomicEq): (r: Result<Sequence>)
    ensures operand.item.Err? ==> r == Err(operand.item.error)
    ensures ItemAgrees(operand) && |Items(operand.result)| >= 2 ==> r == Err(ErrTypeInappropriateType)
    ensures Atomized(operand.item, atomize).Err? ==> r == Err(Atomized(operand.item, atomize).error)
    ensures r.Ok? ==> r.value == dft.result ||
                      exists k :: 0 <= k < |cases| && |cases[k]| > 0 && r.value == cases[k][|cases[k]| - 1].result
  {
    match Atomized(operand.item, atomize)
    case Err(e) => Err(e)
    case Ok(oa) =>
      match FirstMatch(oa, TestsFrom(cases, 0), atomize, eq)
      case Err(e) => Err(e)
      case Ok(None) => Ok(dft.result)
      case Ok(Some(k)) =>
        if k < |cases| && |cases[k]| > 0 then Ok(cases[k][|cases[k]| - 1].result) else Ok(dft.result)
  }

  /** Every test carries the index of a case that has a return expression. */
  lemma {:induction false} TestsFromCases(cases: seq<seq<Expr>>, k: nat)
    requires k <= |cases|
    ensures forall p :: 0 <= p < |TestsFrom(cases, k)| ==>
              k <= TestsFrom(cases, k)[p].0 < |cases| && |cases[TestsFrom(cases, k)[p].0]| > 1
    decreases |cases| - k
  {
    if k < |cases| {
      TestsFromCases(cases, k + 1);
    }
  }

  /** The switch selects a case's return expression exactly when a test matched
    * (a null operand matches a null test), and the default otherwise. */
  lemma EvaluateSelects(operand: Expr, cases: seq<seq<Expr>>, dft: Expr, atomize: Atomizer, eq: AtomicEq)
    requires Atomized(operand.item, atomize).Ok?
    ensures var oa := Atomized(operand.item, atomize).value;
            var tests := TestsFrom(cases, 0);
            (FirstMatch(oa, tests, atomize, eq) == Ok(None) ==> Evaluate(operand, cases, dft, atomize, eq) == Ok(dft.result)) &&
            (forall k :: FirstMatch(oa, tests, atomize, eq) == Ok(Some(k)) ==>
               k < |cases| && |cases[k]| > 1 &&
               Evaluate(operand, cases, dft, atomize, eq) == Ok(cases[k][|cases[k]| - 1].result))
  {
    var oa := Atomized(operand.item, atomize).value;
    var tests := TestsFrom(cases, 0);
    TestsFromCases(cases, 0);
    FirstMatchIsFirst(oa, tests, atomize, eq);
  }

  /** The error of a test that is reached, every earlier test having compared
    * unequal, is the error of the scan. */
  lemma {:induction false} FirstMatchError(oa: Sequence, tests: seq<(nat, Expr)>, atomize: Atomizer, eq: AtomicEq, p: nat)
    requires p < |tests| && TestMatches(oa, tests[p].1, atomize, eq).Err?
    requires forall q :: 0 <= q < p ==> TestMatches(oa, tests[q].1, atomize, eq) == Ok(false)
    ensures FirstMatch(oa, tests, atomize, eq) == Err(TestMatches(oa, tests[p].1, atomize, eq).error)
    decreases |tests|
  {
    if p > 0 {
      assert TestMatches(oa, tests[0].1, atomize, eq) == Ok(false);
      forall q | 0 <= q < p - 1
        ensures TestMatches(oa, tests[1..][q].1, atomize, eq) == Ok(false)
      {
        assert tests[1..][q] == tests[q + 1];
      }
      assert tests[1..][p - 1] == tests[p];
      FirstMatchError(oa, tests[1..], atomize, eq, p - 1);
    }
  }

  /** A test reached by the scan that fails to evaluate (err:XPTY0004 for a
    * test of two or more items) makes the switch fail with that error. */
  lemma EvaluateTestError(operand: Expr, cases: seq<seq<Expr>>, dft: Expr, atomize: Atomizer, eq: AtomicEq, p: nat)
    requires Atomized(operand.item, atomize).Ok?
    requires p < |TestsFrom(cases, 0)|
    requires TestMatches(Atomized(operand.item, atomize).value, TestsFrom(cases, 0)[p].1, atomize, eq).Err?
    requires forall q :: 0 <= q < p ==>
               TestMatches(Atomized(operand.item, atomize).value, TestsFrom(cases, 0)[q].1, atomize, eq) == Ok(false)
    ensures Evaluate(operand, cases, dft, atomize, eq) ==
              Err(TestMatches(Atomized(operand.item, atomize).value, TestsFrom(cases, 0)[p].1, atomize, eq).error)
  {
    FirstMatchError(Atomized(operand.item, atomize).value, TestsFrom(cases, 0), atomize, eq, p);
  }

  /** An empty operand matches an empty test. */
  lemma EmptyMatchesEmpty(test: Expr, atomize: Atomizer, eq: AtomicEq)
    requires test.item == Ok(None)
    ensures TestMatches(Null, test, atomize, eq) == Ok(true)
  {
  }

  /** evaluateToItem: the evaluated result taken as at most one item. */
  function EvaluateToItem(operand: Expr, cases: seq<seq<Expr>>, dft: Expr, atomize: Atomizer, eq: AtomicEq): (r: Result<Option<Item>>)
    ensures Evaluate(operand, cases, dft, atomize, eq).Err? ==> r.Err?
    ensures Evaluate(operand, cases, dft, atomize, eq).Ok? ==>
              var items := Items(Evaluate(operand, cases, dft, atomize, eq).value);
              (r == Ok(None) <==> items == []) && (|items| == 1 ==> r == Ok(Some(items[0]))) &&
              (|items| >= 2 ==> r == Err(ErrTypeInappropriateType))
  {
    match Evaluate(operand, cases, dft, atomize, eq)
    case Err(e) => Err(e)
    case Ok(s) => ExprUtil.AsItemOf(s)
  }

  function AnyUpdating(cases: seq<seq<Expr>>): (r: bool)
    ensures r <==> exists k, l :: 0 <= k < |cases| && 0 <= l < |cases[k]| && cases[k][l].updating
  {
    if cases == [] then false
    else if exists l :: 0 <= l < |cases[0]| && cases[0][l].updating then true
    else
      var r := AnyUpdating(cases[1..]);
      assert r ==> exists k, l :: 0 <= k < |cases| && 0 <= l < |cases[k]| && cases[k][l].updating by {
        if r {
          var k, l :| 0 <= k < |cases[1..]| && 0 <= l < |cases[1..][k]| && cases[1..][k][l].updating;
          assert cases[k + 1][l].updating;
        }
      }
      assert (exists k, l :: 0 <= k < |cases| && 0 <= l < |cases[k]| && cases[k][l].updating) ==> r by {
        if exists k, l :: 0 <= k < |cases| && 0 <= l < |cases[k]| && cases[k][l].updating {
          var k, l :| 0 <= k < |cases| && 0 <= l < |cases[k]| && cases[k][l].updating;
          assert k > 0 && cases[1..][k - 1][l].updating;
        }
      }
      r
  }

  function AnyVacuous(cases: seq<seq<Expr>>): (r: bool)
    ensures r <==> exists k, l :: 0 <= k < |cases| && 0 <= l < |cases[k]| && cases[k][l].vacuous
  {
    if cases == [] then false
    else if exists l :: 0 <= l < |cases[0]| && cases[0][l].vacuous then true
    else
      var r := AnyVacuous(cases[1..]);
      assert r ==> exists k, l :: 0 <= k < |cases| && 0 <= l < |cases[k]| && cases[k][l].vacuous by {
        if r {
          var k, l :| 0 <= k < |cases[1..]| && 0 <= l < |cases[1..][k]| && cases[1..][k][l].vacuous;
          assert cases[k + 1][l].vacuous;
        }
      }
      assert (exists k, l :: 0 <= k < |cases| && 0 <= l < |cases[k]| && cases[k][l].vacuous) ==> r by {
        if exists k, l :: 0 <= k < |cases| && 0 <= l < |cases[k]| && cases[k][l].vacuous {
          var k, l :| 0 <= k < |cases| && 0 <= l < |cases[k]| && cases[k][l].vacuous;
          assert k > 0 && cases[1..][k - 1][l].vacuous;
        }
      }
      r
  }

  /** isUpdating: the operand, the default or any expression of any case. */
  function IsUpdating(operand: Expr, cases: seq<seq<Expr>>, dft: Expr): (r: bool)
    ensures r <==> operand.updating || dft.updating ||
                   exists k, l :: 0 <= k < |cases| && 0 <= l < |cases[k]| && cases[k][l].updating
  {
    operand.updating || dft.updating || AnyUpdating(cases)
  }

  /** isVacuous: true as soon as any sub-expression is vacuous. */
  function IsVacuous(operand: Expr, cases: seq<seq<Expr>>, dft: Expr): (r: bool)
    ensures r <==> operand.vacuous || dft.vacuous ||
                   exists k, l :: 0 <= k < |cases| && 0 <= l < |cases[k]| && cases[k][l].vacuous
  {
    operand.vacuous || dft.vacuous || AnyVacuous(cases)
  }
}
