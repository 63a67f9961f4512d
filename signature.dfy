// The signature of a function: its result type, its parameter types, whether
// the last parameter is variadic, and the type of the default context item.
// Sequence and item types are type parameters here; their equals and
// toString are passed in.

module Signature {
  import opened Base

  datatype Signature<S, I> = Signature(resultType: S, params: seq<S>, lastIsVarArg: bool, defaultCtxItemType: Option<I>)

  /** The argument of equals: a signature, or any other object (or null). */
  datatype Obj<S, I> = SigObj(sig: Signature<S, I>) | OtherObj

  /** The two-argument constructor: not variadic, no default context item type. */
  function Make<S, I>(resultType: S, params: seq<S>): (s: Signature<S, I>)
    ensures s.resultType == resultType && s.params == params
    ensures !s.lastIsVarArg && s.defaultCtxItemType.None?
  {
    Signature(resultType, params, false, None)
  }

  /** The four-argument constructor keeps every argument. */
  function MakeFull<S, I>(resultType: S, lastIsVarArg: bool, defaultCtxItemType: Option<I>, params: seq<S>): (s: Signature<S, I>)
    ensures s.resultType == resultType && s.params == params
    ensures s.lastIsVarArg == lastIsVarArg && s.defaultCtxItemType == defaultCtxItemType
  {
    Signature(resultType, params, lastIsVarArg, defaultCtxItemType)
  }

  /** The parameter loop of equals, from position i on. */
  function ParamsEqualFrom<S>(ps: seq<S>, qs: seq<S>, i: nat, eqS: (S, S) -> bool): (r: bool)
    requires |ps| == |qs| && i <= |ps|
    ensures r <==> forall k :: i <= k < |ps| ==> eqS(ps[k], qs[k])
    decreases |ps| - i
  {
    if i == |ps| then true
    else if !eqS(ps[i], qs[i]) then false
    else ParamsEqualFrom(ps, qs, i + 1, eqS)
  }

  /** The default context item types agree: both absent, or both present and equal. */
  predicate CtxTypesAgree<I>(a: Option<I>, b: Option<I>, eqI: (I, I) -> bool)
  {
    (a.None? && b.None?) || (a.Some? && b.Some? && eqI(a.value, b.value))
  }

  /** equals. `identical` says whether obj is this very object. */
  function Equals<S, I>(s: Signature<S, I>, obj: Obj<S, I>, identical: bool, eqS: (S, S) -> bool, eqI: (I, I) -> bool): (r: bool)
    requires identical ==> obj == SigObj(s)
    ensures identical ==> r
    ensures obj.OtherObj? ==> !r
    ensures !identical && obj.SigObj? ==>
              (r <==> |s.params| == |obj.sig.params| && eqS(s.resultType, obj.sig.resultType) &&
                      s.lastIsVarArg == obj.sig.lastIsVarArg &&
                      CtxTypesAgree(s.defaultCtxItemType, obj.sig.defaultCtxItemType, eqI) &&
                      forall k :: 0 <= k < |s.params| ==> eqS(s.params[k], obj.sig.params[k]))
  {
    if identical then true
    else if !obj.SigObj? then false
    else
      var o := obj.sig;
      if |s.params| != |o.params| then false
      else if !eqS(s.resultType, o.resultType) || s.lastIsVarArg != o.lastIsVarArg
           || (s.defaultCtxItemType.Some? && (o.defaultCtxItemType.None? || !eqI(s.defaultCtxItemType.value, o.defaultCtxItemType.value)))
           || (s.defaultCtxItemType.None? && o.defaultCtxItemType.Some?) then false
      else ParamsEqualFrom(s.params, o.params, 0, eqS)
  }

  /** equals is reflexive: by identity always, and between two copies of the
    * same value whenever the component equals are reflexive. */
  lemma EqualsReflexive<S, I>(s: Signature<S, I>, identical: bool, eqS: (S, S) -> bool, eqI: (I, I) -> bool)
    requires forall x :: eqS(x, x)
    requires forall y :: eqI(y, y)
    ensures Equals(s, SigObj(s), identical, eqS, eqI)
  {
  }

  /** equals is symmetric whenever the component equals are. */
  lemma EqualsSymmetric<S, I>(a: Signature<S, I>, b: Signature<S, I>, eqS: (S, S) -> bool, eqI: (I, I) -> bool)
    requires forall x, y :: eqS(x, y) == eqS(y, x)
    requires forall x, y :: eqI(x, y) == eqI(y, x)
    ensures Equals(a, SigObj(b), false, eqS, eqI) == Equals(b, SigObj(a), false, eqS, eqI)
  {
  }

  /** The rendered parameter types, in order. */
  function Shown<S>(ps: seq<S>, show: S -> string): (r: seq<string>)
    ensures |r| == |ps| && forall k :: 0 <= k < |ps| ==> r[k] == show(ps[k])
  {
    seq(|ps|, k requires 0 <= k < |ps| => show(ps[k]))
  }

  /** The toString loop after the first parameter: ", " before each further one. */
  function RestText<S>(ps: seq<S>, i: nat, show: S -> string): string
    requires 1 <= i <= |ps|
    decreases |ps| - i
  {
    if i == |ps| then "" else ", " + show(ps[i]) + RestText(ps, i + 1, show)
  }

  lemma {:induction false} RestTextJoins<S>(ps: seq<S>, i: nat, show: S -> string)
    requires 1 <= i <= |ps|
    ensures show(ps[i - 1]) + RestText(ps, i, show) == JoinWith(", ", Shown(ps[i - 1..], show))
    decreases |ps| - i
  {
    var shown := Shown(ps[i - 1..], show);
    if i == |ps| {
      assert shown == [show(ps[i - 1])];
    } else {
      RestTextJoins(ps, i + 1, show);
      var head, rest := show(ps[i - 1]), show(ps[i]) + RestText(ps, i + 1, show);
      assert shown[1..] == Shown(ps[i..], show);
      assert JoinWith(", ", shown) == head + ", " + JoinWith(", ", shown[1..]);
      assert JoinWith(", ", shown[1..]) == rest;
      assert RestText(ps, i, show) == ", " + rest;
      assert head + (", " + rest) == head + ", " + rest;
    }
  }

  /** toString: "(p1, p2, ...) : R", and "() : R" without parameters. */
  function ToString<S, I>(s: Signature<S, I>, show: S -> string): (r: string)
    ensures r == "(" + JoinWith(", ", Shown(s.params, show)) + ") : " + show(s.resultType)
    ensures s.params == [] ==> r == "() : " + show(s.resultType)
  {
    var inner := if |s.params| > 0 then show(s.params[0]) + RestText(s.params, 1, show) else "";
    if |s.params| > 0 then
      RestTextJoins(s.params, 1, show);
      assert s.params[0..] == s.params;
      "(" + inner + ") : " + show(s.resultType)
    else
      "(" + inner + ") : " + show(s.resultType)
  }
}
