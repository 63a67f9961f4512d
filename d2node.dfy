// Memory nodes of the d2linked store: integer-array "division" labels that
// order the children of a parent, the labels generated for a new sibling,
// and document order computed by walking parent chains.

module D2Linked {
  import opened Base
  import opened Jdm

  const NoAdditionalStaticDivisions: nat := 63
  const MaxStaticDivision: int := (1 + NoAdditionalStaticDivisions) * 2 + 1
  const MaxInt: int := 0x7fff_ffff

  /** The division of a first child. */
  const First: seq<int> := [3]

  /** The shared one-component divisions [3], [5], ..., [129]. */
  const StaticDivisions: seq<seq<int>> := [First] + seq(NoAdditionalStaticDivisions, i => [(i + 2) * 2 + 1])

  // ---------------------------------------------------------------------
  // Divisions and their order

  /** Lexicographic order on divisions: the first differing component decides,
    * and a proper prefix comes first. */
  predicate LexLess(a: seq<int>, b: seq<int>)
    decreases |a|
  {
    b != [] && (a == [] || a[0] < b[0] || (a[0] == b[0] && LexLess(a[1..], b[1..])))
  }

  /** Two divisions agree below `k`, and at `k` the first is shorter or smaller. */
  lemma {:induction false} LexLessWitness(a: seq<int>, b: seq<int>, k: nat)
    requires k <= |a| && k < |b|
    requires forall i :: 0 <= i < k ==> a[i] == b[i]
    requires k == |a| || a[k] < b[k]
    ensures LexLess(a, b)
    decreases k
  {
    if k > 0 {
      LexLessWitness(a[1..], b[1..], k - 1);
    }
  }

  /** The index of the first differing component, or the shorter length. */
  function FirstDifference(v1: seq<int>, v2: seq<int>): (k: nat)
    ensures k <= |v1| && k <= |v2|
    ensures forall i :: 0 <= i < k ==> v1[i] == v2[i]
    ensures k < |v1| && k < |v2| ==> v1[k] != v2[k]
    decreases |v1|
  {
    if v1 == [] || v2 == [] || v1[0] != v2[0] then 0
    else 1 + FirstDifference(v1[1..], v2[1..])
  }

  /** Any index below which the divisions agree and at which they differ or
    * one ends is the first difference. */
  lemma {:induction false} FirstDifferenceIs(v1: seq<int>, v2: seq<int>, k: nat)
    requires k <= |v1| && k <= |v2|
    requires forall i :: 0 <= i < k ==> v1[i] == v2[i]
    requires k == |v1| || k == |v2| || v1[k] != v2[k]
    ensures FirstDifference(v1, v2) == k
    decreases k
  {
    if k > 0 {
      FirstDifferenceIs(v1[1..], v2[1..], k - 1);
    }
  }

  /** What compare returns: -1 or 1 by the first differing component, and the
    * difference of the lengths when one division is a prefix of the other. */
  function CompareOf(v1: seq<int>, v2: seq<int>): int
  {
    var k := FirstDifference(v1, v2);
    if k < |v1| && k < |v2| then (if v1[k] < v2[k] then -1 else 1) else |v1| - |v2|
  }

  /** compare is negative exactly for the lexicographically smaller division,
    * zero exactly for equal ones, and antisymmetric. */
  lemma {:induction false} CompareOrder(v1: seq<int>, v2: seq<int>)
    ensures CompareOf(v1, v2) < 0 <==> LexLess(v1, v2)
    ensures CompareOf(v1, v2) == 0 <==> v1 == v2
    ensures CompareOf(v1, v2) == -CompareOf(v2, v1)
    decreases |v1|
  {
    if v1 != [] && v2 != [] && v1[0] == v2[0] {
      CompareOrder(v1[1..], v2[1..]);
      assert FirstDifference(v2, v1) == 1 + FirstDifference(v2[1..], v1[1..]);
      if v1[1..] == v2[1..] {
        assert v1 == [v1[0]] + v1[1..] && v2 == [v2[0]] + v2[1..];
      }
    }
  }

  /** compare: a loop over the common length. */
  method Compare(value1: seq<int>, value2: seq<int>) returns (r: int)
    ensures r == CompareOf(value1, value2)
    ensures r < 0 <==> LexLess(value1, value2)
    ensures r == 0 <==> value1 == value2
    ensures r > 0 <==> LexLess(value2, value1)
  {
    CompareOrder(value1, value2);
    CompareOrder(value2, value1);
    var length1 := |value1|;
    var length2 := |value2|;
    var length := if length1 < length2 then length1 else length2;
    var pos := 0;
    while pos < length
      invariant 0 <= pos <= length
      invariant forall i :: 0 <= i < pos ==> value1[i] == value2[i]
    {
      var v2 := value2[pos];
      var v1 := value1[pos];
      if v1 != v2 {
        FirstDifferenceIs(value1, value2, pos);
        return if v1 < v2 then -1 else 1;
      }
      pos := pos + 1;
    }
    FirstDifferenceIs(value1, value2, pos);
    r := length1 - length2;
  }

  // ---------------------------------------------------------------------
  // Generating divisions

  /** getDivision: a one-component division, shared from the static table up
    * to 129 (where an even value is served by the odd entry above it); any
    * value below 2 indexes the table below its start. */
  function GetDivision(value: int): (r: Result<seq<int>>)
    ensures r.Ok? <==> value >= 2
    ensures r.Err? ==> r.error == IndexOutOfBounds
    ensures value >= 2 && (value % 2 == 1 || value > MaxStaticDivision) ==> r == Ok([value])
    ensures 2 <= value <= MaxStaticDivision && value % 2 == 0 ==> r == Ok([value + 1])
  {
    if value > MaxStaticDivision then Ok([value])
    else if value < 2 then Err(IndexOutOfBounds)
    else
      var j := value / 2 - 1;
      assert StaticDivisions[j] == [(j + 1) * 2 + 1] by {
        if j > 0 {
          assert StaticDivisions[j] == seq(NoAdditionalStaticDivisions, i => [(i + 2) * 2 + 1])[j - 1];
        }
      }
      Ok(StaticDivisions[j])
  }

  /** siblingAfter: the next odd value after the first component. */
  function SiblingAfter(p: seq<int>): (r: Result<seq<int>>)
    requires p != []
    ensures r.Ok? <==> p[0] >= 1
    ensures r.Ok? ==> |r.value| == 1 && r.value[0] % 2 == 1 && p[0] < r.value[0] <= p[0] + 2
  {
    GetDivision(p[0] + (if p[0] % 2 != 0 then 2 else 1))
  }

  /** The division after p compares after p. */
  lemma SiblingAfterFollows(p: seq<int>)
    requires p != [] && p[0] >= 1
    ensures LexLess(p, SiblingAfter(p).value)
  {
    LexLessWitness(p, SiblingAfter(p).value, 0);
  }

  /** The raise of the component after the copied prefix: 0 becomes 3, an
    * even value the next odd one, an odd value the odd one after it. */
  function Bumped(x: int): (y: int)
    ensures x < y <= x + 3 && y % 2 == 1
  {
    x + (if x == 0 then 3 else if x % 2 == 0 then 1 else 2)
  }

  /** Component k of a copy of p padded with zeros. */
  function ComponentOrZero(p: seq<int>, k: nat): int
  {
    if k < |p| then p[k] else 0
  }

  /** The cases of siblingBetween at the first differing component i. */
  function BetweenAt(p: seq<int>, n: seq<int>, i: nat): Result<seq<int>>
    requires i < |p| && i < |n| && p[i] != n[i]
  {
    if n[i] < p[i] then Err(IllegalArgument)
    else if p[i] % 2 == 0 then
      if n[i] - p[i] > 1 then Ok(p[..i] + [p[i] + 1])
      else Ok(p[..i + 1] + [Bumped(ComponentOrZero(p, i + 1))])
    else if n[i] % 2 == 0 then
      if n[i] - p[i] > 2 then Ok(p[..i] + [p[i] + 2])
      else Ok(p[..i + 1] + [Bumped(ComponentOrZero(p, i + 1))])
    else
      if n[i] - p[i] > 2 then Ok(p[..i] + [p[i] + 2])
      else Ok(p[..i] + [p[i] + 1, 3])
  }

  /** siblingBetween as the source has it: with no next sibling, or room
    * before the next sibling's first component, the division after p;
    * otherwise the case at the first differing component, and an
    * IllegalArgumentException when the common prefix holds no difference. */
  function SiblingBetweenAsWritten(p: seq<int>, n: Option<seq<int>>): Result<seq<int>>
    requires p != [] && (n.Some? ==> n.value != [])
  {
    if n.None? || n.value[0] - p[0] > 2 then SiblingAfter(p)
    else
      var k := FirstDifference(p, n.value);
      if k < |p| && k < |n.value| then BetweenAt(p, n.value, k) else Err(IllegalArgument)
  }

  /** The search loop of siblingBetween. */
  method ComputeSiblingBetween(p: seq<int>, n: Option<seq<int>>) returns (r: Result<seq<int>>)
    requires p != [] && (n.Some? ==> n.value != [])
    ensures r == SiblingBetweenAsWritten(p, n)
  {
    if n.None? || n.value[0] - p[0] > 2 {
      return SiblingAfter(p);
    }
    var nv := n.value;
    var length := if |nv| < |p| then |nv| else |p|;
    for i := 0 to length
      invariant forall j :: 0 <= j < i ==> nv[j] == p[j]
    {
      if nv[i] != p[i] {
        FirstDifferenceIs(p, nv, i);
        return BetweenAt(p, nv, i);
      }
    }
    FirstDifferenceIs(p, nv, length);
    return Err(IllegalArgument);
  }

  /** siblingBetween as evidently intended: when p is a proper prefix of n the
    * new division extends p below n's next component instead of failing. */
  function SiblingBetween(p: seq<int>, n: Option<seq<int>>): Result<seq<int>>
    requires p != [] && (n.Some? ==> n.value != [])
  {
    if n.None? || n.value[0] - p[0] > 2 then SiblingAfter(p)
    else
      var k := FirstDifference(p, n.value);
      if k < |p| && k < |n.value| then BetweenAt(p, n.value, k)
      else if k == |p| && k < |n.value| then Ok(p + [n.value[k] - 1, 3])
      else Err(IllegalArgument)
  }

  /** The two agree except when p is a proper prefix of n. */
  lemma SiblingBetweenDiffersOnlyOnPrefix(p: seq<int>, n: Option<seq<int>>)
    requires p != [] && (n.Some? ==> n.value != [])
    ensures SiblingBetweenAsWritten(p, n) != SiblingBetween(p, n) ==>
              n.Some? && |p| < |n.value| && n.value[..|p|] == p && SiblingBetweenAsWritten(p, n) == Err(IllegalArgument)
  {
    if SiblingBetweenAsWritten(p, n) != SiblingBetween(p, n) {
      var k := FirstDifference(p, n.value);
      assert k == |p| && k < |n.value|;
      assert n.value[..|p|] == p;
    }
  }

  /** The first difference of p and a later division n is a larger component
    * of n, or p ends there. */
  lemma {:induction false} LexLessAtFirstDifference(a: seq<int>, b: seq<int>)
    ensures var k := FirstDifference(a, b);
            LexLess(a, b) <==> (k < |a| && k < |b| && a[k] < b[k]) || (k == |a| && k < |b|)
    decreases |a|
  {
    if a != [] && b != [] && a[0] == b[0] {
      LexLessAtFirstDifference(a[1..], b[1..]);
    }
  }

  /** Raising component i of p to a value below n's, whatever follows. */
  lemma RaisedIsBetween(p: seq<int>, n: seq<int>, i: nat, v: int, tail: seq<int>)
    requires i < |p| && i < |n| && p[i] < v < n[i]
    requires forall j :: 0 <= j < i ==> p[j] == n[j]
    ensures LexLess(p, p[..i] + [v] + tail) && LexLess(p[..i] + [v] + tail, n)
  {
    LexLessWitness(p, p[..i] + [v] + tail, i);
    LexLessWitness(p[..i] + [v] + tail, n, i);
  }

  /** Keeping component i of p and raising the one after it. */
  lemma ExtendedIsBetween(p: seq<int>, n: seq<int>, i: nat, v: int)
    requires i < |p| && i < |n| && p[i] < n[i]
    requires forall j :: 0 <= j < i ==> p[j] == n[j]
    requires i + 1 < |p| ==> p[i + 1] < v
    ensures LexLess(p, p[..i + 1] + [v]) && LexLess(p[..i + 1] + [v], n)
  {
    LexLessWitness(p, p[..i + 1] + [v], i + 1);
    LexLessWitness(p[..i + 1] + [v], n, i);
  }

  /** Component i of p raised by one (even p[i], room before n[i]). */
  lemma RaisedByOneIsBetween(p: seq<int>, n: seq<int>, i: nat)
    requires i < |p| && i < |n| && p[i] < n[i] && p[i] % 2 == 0 && n[i] - p[i] > 1
    requires forall j :: 0 <= j < i ==> p[j] == n[j]
    ensures BetweenAt(p, n, i) == Ok(p[..i] + [p[i] + 1])
    ensures LexLess(p, p[..i] + [p[i] + 1]) && LexLess(p[..i] + [p[i] + 1], n)
  {
    RaisedIsBetween(p, n, i, p[i] + 1, []);
    assert p[..i] + [p[i] + 1] == p[..i] + [p[i] + 1] + [];
  }

  /** Component i of p raised by two (odd p[i], room before n[i]). */
  lemma RaisedByTwoIsBetween(p: seq<int>, n: seq<int>, i: nat)
    requires i < |p| && i < |n| && p[i] < n[i] && p[i] % 2 != 0 && n[i] - p[i] > 2
    requires forall j :: 0 <= j < i ==> p[j] == n[j]
    ensures BetweenAt(p, n, i) == Ok(p[..i] + [p[i] + 2])
    ensures LexLess(p, p[..i] + [p[i] + 2]) && LexLess(p[..i] + [p[i] + 2], n)
  {
    RaisedIsBetween(p, n, i, p[i] + 2, []);
    assert p[..i] + [p[i] + 2] == p[..i] + [p[i] + 2] + [];
  }

  /** Component i of p kept and the one after it raised (no room at i). */
  lemma KeptAndBumpedIsBetween(p: seq<int>, n: seq<int>, i: nat)
    requires i < |p| && i < |n| && p[i] < n[i]
    requires (p[i] % 2 == 0 && n[i] - p[i] <= 1) || (p[i] % 2 != 0 && n[i] % 2 == 0 && n[i] - p[i] <= 2)
    requires forall j :: 0 <= j < i ==> p[j] == n[j]
    ensures var v := Bumped(ComponentOrZero(p, i + 1));
            BetweenAt(p, n, i) == Ok(p[..i + 1] + [v]) &&
            LexLess(p, p[..i + 1] + [v]) && LexLess(p[..i + 1] + [v], n)
  {
    ExtendedIsBetween(p, n, i, Bumped(ComponentOrZero(p, i + 1)));
  }

  /** Odd p[i] and n[i] two apart: the even value between, then 3. */
  lemma RaisedByOneThenThreeIsBetween(p: seq<int>, n: seq<int>, i: nat)
    requires i < |p| && i < |n| && p[i] % 2 != 0 && n[i] % 2 != 0 && n[i] - p[i] == 2
    requires forall j :: 0 <= j < i ==> p[j] == n[j]
    ensures BetweenAt(p, n, i) == Ok(p[..i] + [p[i] + 1, 3])
    ensures LexLess(p, p[..i] + [p[i] + 1, 3]) && LexLess(p[..i] + [p[i] + 1, 3], n)
  {
    RaisedIsBetween(p, n, i, p[i] + 1, [3]);
    assert p[..i] + [p[i] + 1, 3] == p[..i] + [p[i] + 1] + [3];
  }

  /** The case at the first difference lies strictly between p and n. */
  lemma BetweenAtIsBetween(p: seq<int>, n: seq<int>, i: nat)
    requires i < |p| && i < |n| && p[i] < n[i]
    requires forall j :: 0 <= j < i ==> p[j] == n[j]
    ensures BetweenAt(p, n, i).Ok?
    ensures LexLess(p, BetweenAt(p, n, i).value) && LexLess(BetweenAt(p, n, i).value, n)
  {
    var gap := n[i] - p[i];
    if p[i] % 2 == 0 && gap > 1 {
      RaisedByOneIsBetween(p, n, i);
    } else if (p[i] % 2 == 0 && gap <= 1) || (p[i] % 2 != 0 && n[i] % 2 == 0 && gap <= 2) {
      KeptAndBumpedIsBetween(p, n, i);
    } else if gap > 2 {
      RaisedByTwoIsBetween(p, n, i);
    } else {
      assert gap % 2 == 0;
      RaisedByOneThenThreeIsBetween(p, n, i);
    }
  }

  /** For p before n (or no n) whose first component is at least 1, the
    * corrected siblingBetween yields a division strictly between them. */
  lemma SiblingBetweenIsBetween(p: seq<int>, n: Option<seq<int>>)
    requires p != [] && p[0] >= 1
    requires n.Some? ==> n.value != [] && LexLess(p, n.value)
    ensures SiblingBetween(p, n).Ok?
    ensures LexLess(p, SiblingBetween(p, n).value)
    ensures n.Some? ==> LexLess(SiblingBetween(p, n).value, n.value)
  {
    var r := SiblingBetween(p, n);
    if n.None? || n.value[0] - p[0] > 2 {
      SiblingAfterFollows(p);
      if n.Some? {
        LexLessWitness(r.value, n.value, 0);
      }
    } else {
      var k := FirstDifference(p, n.value);
      LexLessAtFirstDifference(p, n.value);
      if k < |p| && k < |n.value| {
        BetweenAtIsBetween(p, n.value, k);
      } else {
        LexLessWitness(p, r.value, k);
        LexLessWitness(r.value, n.value, k);
      }
    }
  }

  /** Both versions reject a next sibling that does not come after p. */
  lemma SiblingBetweenRejects(p: seq<int>, n: seq<int>)
    requires p != [] && n != [] && !LexLess(p, n)
    ensures SiblingBetweenAsWritten(p, Some(n)) == Err(IllegalArgument)
    ensures SiblingBetween(p, Some(n)) == Err(IllegalArgument)
  {
    LexLessAtFirstDifference(p, n);
  }

  /** p = [3] comes before n = [3, 3], yet the source rejects the pair; the
    * corrected version answers [3, 2, 3]. */
  lemma SiblingBetweenPrefixCounterexample()
    ensures LexLess([3], [3, 3])
    ensures SiblingBetweenAsWritten([3], Some([3, 3])) == Err(IllegalArgument)
    ensures SiblingBetween([3], Some([3, 3])) == Ok([3, 2, 3])
  {
    assert LexLess([3][1..], [3, 3][1..]);
    FirstDifferenceIs([3], [3, 3], 1);
    assert [3] + [[3, 3][1] - 1, 3] == [3, 2, 3];
  }

  /** The index of the first component above 3 from `i` on, or the length. */
  function FirstAbove3(n: seq<int>, i: nat): (k: nat)
    requires i <= |n|
    ensures i <= k <= |n| && (k < |n| ==> n[k] > 3)
    ensures forall j :: i <= j < k ==> n[j] <= 3
    decreases |n| - i
  {
    if i == |n| || n[i] > 3 then i else FirstAbove3(n, i + 1)
  }

  /** siblingBefore: for a one-component division the division two below it,
    * or [2, 3]; otherwise the first component above 3 lowered to the value
    * below it of the other parity, or a new level under the last component
    * lowered by one. */
  function SiblingBeforeOf(n: seq<int>): seq<int>
    requires n != []
  {
    if |n| == 1 then (if n[0] > 3 then GetDivision(n[0] - 2).value else [2, 3])
    else
      var i := FirstAbove3(n, 0);
      if i < |n| then n[..i] + [n[i] - (if n[i] % 2 == 0 then 1 else 2)]
      else n[..|n| - 1] + [n[|n| - 1] - 1, 3]
  }

  /** The loop of siblingBefore. */
  method SiblingBefore(n: seq<int>) returns (r: seq<int>)
    requires n != []
    ensures r == SiblingBeforeOf(n)
  {
    if |n| == 1 {
      return if n[0] > 3 then GetDivision(n[0] - 2).value else [2, 3];
    }
    for i := 0 to |n|
      invariant forall j :: 0 <= j < i ==> n[j] <= 3
    {
      if n[i] > 3 {
        assert FirstAbove3(n, 0) == i by { FirstAbove3Is(n, 0, i); }
        return n[..i] + [n[i] - (if n[i] % 2 == 0 then 1 else 2)];
      }
    }
    assert FirstAbove3(n, 0) == |n| by { FirstAbove3Is(n, 0, |n|); }
    r := n[..|n| - 1] + [n[|n| - 1] - 1, 3];
  }

  lemma {:induction false} FirstAbove3Is(n: seq<int>, i: nat, k: nat)
    requires i <= k <= |n| && (k < |n| ==> n[k] > 3)
    requires forall j :: i <= j < k ==> n[j] <= 3
    ensures FirstAbove3(n, i) == k
    decreases k - i
  {
    if i < k {
      FirstAbove3Is(n, i + 1, k);
    }
  }

  /** The division before n compares before n when n has several components or
    * a first component of at least 3. */
  lemma SiblingBeforePrecedes(n: seq<int>)
    requires n != [] && (|n| > 1 || n[0] >= 3)
    ensures LexLess(SiblingBeforeOf(n), n)
  {
    var r := SiblingBeforeOf(n);
    if |n| == 1 {
      LexLessWitness(r, n, 0);
    } else {
      var i := FirstAbove3(n, 0);
      if i < |n| {
        LexLessWitness(r, n, i);
      } else {
        LexLessWitness(r, n, |n| - 1);
      }
    }
  }

  // ---------------------------------------------------------------------
  // Fragment ids

  /** Java's 32-bit two's-complement wrap-around. */
  function Wrap32(x: int): int
  {
    (x + 0x8000_0000) % 0x1_0000_0000 - 0x8000_0000
  }

  /** The global id sequence behind localFragmentID. */
  class IdSequence {
    var value: int

    ghost predicate Valid()
      reads this
    {
      0 <= value <= MaxInt
    }

    constructor ()
      ensures Valid() && value == 0
    {
      value := 0;
    }

    /** localFragmentID: incrementAndGet, and a wrapped (negative) id replaced
      * by 1; run sequentially, the compare-and-set succeeds at once. */
    method LocalFragmentId() returns (id: int)
      requires Valid()
      modifies this
      ensures Valid() && id == value && 1 <= id
      ensures id == (if old(value) == MaxInt then 1 else old(value) + 1)
    {
      value := Wrap32(value + 1);
      id := value;
      if id < 0 {
        value := 1;
        id := 1;
      }
    }
  }

  // ---------------------------------------------------------------------
  // Nodes

  /** A memory node: its parent, its division among its siblings, its kind and
    * the fragment id it shares with its root. */
  class D2Node {
    const parent: D2Node?
    const division: seq<int>
    const kind: Kind
    const fragment: int
    ghost const depth: nat

    /** Parents are created before their children, so parent chains end. */
    ghost predicate Valid()
      decreases depth
    {
      division != [] &&
      (parent != null ==> parent.depth < depth && parent.fragment == fragment && parent.Valid())
    }

    /** A root draws a fresh fragment id; any other node takes its parent's. */
    constructor (parent: D2Node?, division: seq<int>, kind: Kind, ids: IdSequence)
      requires parent != null ==> parent.Valid()
      requires division != [] && ids.Valid()
      modifies ids
      ensures Valid() && ids.Valid()
      ensures this.parent == parent && this.division == division && this.kind == kind
      ensures parent != null ==> fragment == parent.fragment && ids.value == old(ids.value)
      ensures parent == null ==> fragment == ids.value && ids.value == (if old(ids.value) == MaxInt then 1 else old(ids.value) + 1)
    {
      this.parent := parent;
      this.division := division;
      this.kind := kind;
      this.depth := if parent == null then 0 else parent.depth + 1;
      if parent == null {
        var id := ids.LocalFragmentId();
        this.fragment := id;
      } else {
        this.fragment := parent.fragment;
      }
    }

    /** isChildOf. */
    function IsChildOf(node: D2Node?): (r: bool)
      requires Valid()
      ensures r <==> node != null && |Chain(this)| > 1 && Chain(this)[1] == node
    {
      node != null && parent == node
    }

    /** isDescendantOf: the node lies on the parent chain above this one. */
    function IsDescendantOf(node: D2Node?): (r: bool)
      requires Valid()
      ensures r <==> node != null && node in Chain(this)[1..]
      decreases depth
    {
      node != null && (parent == node || (parent != null && parent.IsDescendantOf(node)))
    }

    /** isDescendantOrSelfOf. */
    function IsDescendantOrSelfOf(node: D2Node?): (r: bool)
      requires Valid()
      ensures r <==> node != null && node in Chain(this)
      decreases depth
    {
      node != null && (this == node || parent == node || (parent != null && parent.IsDescendantOrSelfOf(node)))
    }

    /** isSiblingOf: another child of the same parent. */
    function IsSiblingOf(node: D2Node?): (r: bool)
      requires Valid()
      ensures r <==> node != null && node != this && parent != null && node.parent == parent
    {
      node != null && node != this && parent != null && node.parent == parent
    }

    /** isFollowingSiblingOf: a non-attribute sibling whose division is smaller. */
    function IsFollowingSiblingOf(node: D2Node?): (r: bool)
      ensures r <==> parent != null && node != null && node != this && node.kind != Attribute &&
                     node.parent == parent && LexLess(node.division, division)
    {
      if parent == null || node == this || node == null || node.kind == Attribute then false
      else if parent != node.parent then false
      else
        CompareOrder(division, node.division);
        CompareOrder(node.division, division);
        CompareOf(division, node.division) > 0
    }

    /** isPrecedingSiblingOf: a non-attribute sibling whose division is larger. */
    function IsPrecedingSiblingOf(node: D2Node?): (r: bool)
      ensures r <==> parent != null && node != null && node != this && node.kind != Attribute &&
                     node.parent == parent && LexLess(division, node.division)
    {
      if parent == null || node == this || node == null || node.kind == Attribute then false
      else if parent != node.parent then false
      else CompareOrder(division, node.division); CompareOf(division, node.division) < 0
    }

    /** isInSubtreeOf: the walk up from the parent. */
    method IsInSubtreeOf(n: D2Node?) returns (r: bool)
      requires Valid()
      ensures r == IsDescendantOf(n)
    {
      ghost var chain := Chain(this);
      ghost var k := 1;
      var a := parent;
      while a != null
        invariant 1 <= k <= |chain|
        invariant a == (if k < |chain| then chain[k] else null)
        invariant forall m :: 1 <= m < k ==> chain[m] != n
        decreases |chain| - k
      {
        if a == n {
          return true;
        }
        a := a.parent;
        k := k + 1;
      }
      return false;
    }

    /** getRoot: the end of the parent chain. */
    method GetRoot() returns (r: D2Node)
      requires Valid()
      ensures r == Root(this)
    {
      ghost var chain := Chain(this);
      ghost var k := 0;
      r := this;
      while r.parent != null
        invariant 0 <= k < |chain| && r == chain[k]
        invariant k < |chain| - 1 ==> r.parent == chain[k + 1]
        decreases |chain| - k
      {
        r := r.parent;
        k := k + 1;
      }
    }

    /** cmpInternal: the outer walk goes up from this node; for each of its
      * ancestors-or-self the inner walk goes up from the other node. */
    method CmpInternal(node: D2Node) returns (r: int)
      requires Valid() && node.Valid()
      ensures r == DocOrder(this, node)
    {
      if node == this {
        return 0;
      }
      if fragment != node.fragment {
        return if fragment < node.fragment then -1 else 1;
      }
      ghost var A := Chain(this);
      ghost var B := Chain(node);
      ghost var i := 0;
      var c: D2Node? := null;
      var cp: D2Node? := this;
      while cp != null
        invariant 0 <= i <= |A|
        invariant cp == (if i < |A| then A[i] else null)
        invariant i > 0 ==> c == A[i - 1]
        invariant forall k :: 0 <= k < i ==> A[k] !in B
        decreases |A| - i
      {
        ghost var j := 0;
        var lcap: D2Node? := null;
        var lca: D2Node? := node;
        while lca != null
          invariant 0 <= j <= |B|
          invariant lca == (if j < |B| then B[j] else null)
          invariant j > 0 ==> lcap == B[j - 1]
          invariant forall m :: 0 <= m < j ==> B[m] != cp
          decreases |B| - j
        {
          if lca == cp {
            assert FirstShared(A, B, 0) == Some(i);
            assert IndexOf(B, A[i]) == j;
            if lca == this {
              return -1;
            }
            if lca == node {
              return 1;
            }
            var kind := c.kind;
            var nkind := lcap.kind;
            if (kind == Attribute) != (nkind == Attribute) {
              return if kind == Attribute then -1 else 1;
            }
            r := Compare(c.division, lcap.division);
            return;
          }
          lcap := lca;
          lca := lca.parent;
          j := j + 1;
        }
        c := cp;
        cp := cp.parent;
        i := i + 1;
      }
      return -1;
    }

    /** isFollowingOf: after the node in document order, not an attribute, and
      * not below it. */
    method IsFollowingOf(node: D2Node?) returns (r: bool)
      requires Valid() && (node != null ==> node.Valid())
      ensures r <==> node != null && node != this && kind != Attribute &&
                     DocOrder(this, node) > 0 && !IsDescendantOf(node)
    {
      if node == this || node == null || kind == Attribute {
        return false;
      }
      var order := CmpInternal(node);
      if order <= 0 {
        return false;
      }
      r := IsInSubtreeOf(node);
      r := !r;
    }

    /** isPrecedingOf: before the node in document order, not an attribute, and
      * not above it. */
    method IsPrecedingOf(node: D2Node?) returns (r: bool)
      requires Valid() && (node != null ==> node.Valid())
      ensures r <==> node != null && node != this && kind != Attribute &&
                     DocOrder(this, node) < 0 && !node.IsDescendantOf(this)
    {
      if node == this || node == null || kind == Attribute {
        return false;
      }
      var order := CmpInternal(node);
      if order >= 0 {
        return false;
      }
      ghost var chain := Chain(node);
      ghost var k := 1;
      var n := node.parent;
      while n != null
        invariant 1 <= k <= |chain|
        invariant n == (if k < |chain| then chain[k] else null)
        invariant forall m :: 1 <= m < k ==> chain[m] != this
        decreases |chain| - k
      {
        if n == this {
          return false;
        }
        n := n.parent;
        k := k + 1;
      }
      return true;
    }
  }

  /** The node followed by its ancestors, up to the root; depths strictly
    * decrease along it, so no node occurs twice. */
  function Chain(n: D2Node): (r: seq<D2Node>)
    requires n.Valid()
    ensures r != [] && r[0] == n
    ensures forall k :: 0 <= k < |r| ==> r[k].Valid()
    ensures forall k :: 1 <= k < |r| ==> r[k] == r[k - 1].parent
    ensures r[|r| - 1].parent == null
    ensures forall k, m :: 0 <= k < m < |r| ==> r[m].depth < r[k].depth
    decreases n.depth
  {
    if n.parent == null then [n] else [n] + Chain(n.parent)
  }

  function Root(n: D2Node): D2Node
    requires n.Valid()
  {
    Chain(n)[|Chain(n)| - 1]
  }

  /** The least index from `i` on of A whose node is on B. */
  function FirstShared(A: seq<D2Node>, B: seq<D2Node>, i: nat): (r: Option<nat>)
    requires i <= |A|
    ensures r.Some? ==> i <= r.value < |A| && A[r.value] in B
    ensures forall k :: i <= k < |A| && (r.None? || k < r.value) ==> A[k] !in B
    decreases |A| - i
  {
    if i == |A| then None else if A[i] in B then Some(i) else FirstShared(A, B, i + 1)
  }

  /** The least index of x in B. */
  function IndexOf(B: seq<D2Node>, x: D2Node): (j: nat)
    requires x in B
    ensures j < |B| && B[j] == x && forall m :: 0 <= m < j ==> B[m] != x
  {
    if B[0] == x then 0 else 1 + IndexOf(B[1..], x)
  }

  /** The order of two children of the same node: attributes first, then by
    * division. */
  function SiblingOrder(c: D2Node, l: D2Node): int
  {
    if (c.kind == Attribute) != (l.kind == Attribute) then (if c.kind == Attribute then -1 else 1)
    else CompareOf(c.division, l.division)
  }

  /** Depths strictly decrease along the sequence. */
  ghost predicate Descending(s: seq<D2Node>)
  {
    forall k, m :: 0 <= k < m < |s| ==> s[m].depth < s[k].depth
  }

  /** The order at the least common ancestor of two parent chains: the node
    * that is the ancestor comes first, and otherwise the two children of the
    * ancestor on the chains decide. */
  function LcaOrder(A: seq<D2Node>, B: seq<D2Node>): int
  {
    match FirstShared(A, B, 0)
    case None => -1
    case Some(i) =>
      var j := IndexOf(B, A[i]);
      if i == 0 then -1 else if j == 0 then 1 else SiblingOrder(A[i - 1], B[j - 1])
  }

  /** Document order as cmpInternal decides it: by fragment id, then at the
    * least common ancestor; nodes of one fragment with no common ancestor
    * compare as -1. */
  function DocOrder(a: D2Node, b: D2Node): int
    requires a.Valid() && b.Valid()
  {
    if a == b then 0
    else if a.fragment != b.fragment then (if a.fragment < b.fragment then -1 else 1)
    else LcaOrder(Chain(a), Chain(b))
  }

  /** An ancestor comes before its descendants, and they after it. */
  lemma AncestorFirst(a: D2Node, b: D2Node)
    requires a.Valid() && b.Valid() && a != b && a.fragment == b.fragment
    requires a in Chain(b)
    ensures DocOrder(a, b) == -1 && DocOrder(b, a) == 1
  {
    var A := Chain(b);
    var B := Chain(a);
    assert FirstShared(B, A, 0) == Some(0);
    var t := IndexOf(A, a);
    forall k | 0 <= k < t
      ensures A[k] !in B
    {
      assert a.depth < A[k].depth;
      forall m | 0 <= m < |B|
        ensures B[m] != A[k]
      {
        assert m == 0 || B[m].depth < B[0].depth;
      }
    }
    FirstSharedIs(A, B, 0, t);
  }

  /** The first shared position is the first one whose node is in B. */
  lemma {:induction false} FirstSharedIs(A: seq<D2Node>, B: seq<D2Node>, i: nat, t: nat)
    requires i <= t < |A| && A[t] in B
    requires forall k :: i <= k < t ==> A[k] !in B
    ensures FirstShared(A, B, i) == Some(t)
    decreases t - i
  {
    if i < t {
      FirstSharedIs(A, B, i + 1, t);
    }
  }

  /** An attribute comes before a non-attribute child of the same node. */
  lemma AttributeFirst(c: D2Node, l: D2Node)
    requires c.Valid() && l.Valid() && c != l && c.parent != null && c.parent == l.parent
    requires c.kind == Attribute && l.kind != Attribute
    ensures DocOrder(c, l) == -1 && DocOrder(l, c) == 1
  {
    var A := Chain(c);
    var B := Chain(l);
    assert A[1] == c.parent && B[1] == l.parent;
    forall k | 0 <= k < |B| ensures B[k] != c {
      if k > 0 {
        assert B[k].depth <= B[1].depth;
      }
    }
    assert FirstShared(A, B, 0) == Some(1);
    assert IndexOf(B, A[1]) == 1;
    forall k | 0 <= k < |A| ensures A[k] != l {
      if k > 0 {
        assert A[k].depth <= A[1].depth;
      }
    }
    assert FirstShared(B, A, 0) == Some(1);
    assert IndexOf(A, B[1]) == 1;
  }

  /** On chains of strictly decreasing depth the least common ancestor found
    * from either side is the same node. */
  lemma FirstSharedSymmetric(A: seq<D2Node>, B: seq<D2Node>, i: nat)
    requires Descending(A) && Descending(B)
    requires FirstShared(A, B, 0) == Some(i)
    ensures var j := IndexOf(B, A[i]);
            FirstShared(B, A, 0) == Some(j) && IndexOf(A, B[j]) == i
  {
    var j := IndexOf(B, A[i]);
    forall m | 0 <= m < j
      ensures B[m] !in A
    {
    }
    var fs := FirstShared(B, A, 0);
    assert fs.Some? && fs.value == j;
    var i' := IndexOf(A, B[j]);
    assert i' <= i;
    assert A[i'] in B;
  }

  /** The order at the least common ancestor is antisymmetric when the chains
    * meet. */
  lemma LcaOrderAntisymmetric(A: seq<D2Node>, B: seq<D2Node>)
    requires Descending(A) && Descending(B) && A != [] && B != [] && A[0] != B[0]
    requires A[|A| - 1] in B
    ensures LcaOrder(A, B) == -LcaOrder(B, A)
  {
    var i := FirstShared(A, B, 0).value;
    FirstSharedSymmetric(A, B, i);
    var j := IndexOf(B, A[i]);
    if i > 0 && j > 0 {
      CompareOrder(A[i - 1].division, B[j - 1].division);
    }
  }

  /** cmpInternal is antisymmetric for nodes of different fragments or of one
    * tree. */
  lemma DocOrderAntisymmetric(a: D2Node, b: D2Node)
    requires a.Valid() && b.Valid()
    requires a.fragment != b.fragment || Root(a) == Root(b)
    ensures DocOrder(a, b) == -DocOrder(b, a)
  {
    if a != b && a.fragment == b.fragment {
      var A := Chain(a);
      var B := Chain(b);
      assert A[|A| - 1] == B[|B| - 1];
      LcaOrderAntisymmetric(A, B);
    }
  }

  /** Siblings on the two parent chains carry distinct divisions. */
  ghost predicate DistinctSiblings(a: D2Node, b: D2Node)
    requires a.Valid() && b.Valid()
  {
    forall x, y :: x in Chain(a) && y in Chain(b) && x != y && x.parent != null && x.parent == y.parent ==>
      x.division != y.division
  }

  /** cmpInternal answers 0 only for the node itself. */
  lemma DocOrderZeroOnlySelf(a: D2Node, b: D2Node)
    requires a.Valid() && b.Valid() && DistinctSiblings(a, b)
    ensures DocOrder(a, b) == 0 <==> a == b
  {
    if a != b && a.fragment == b.fragment {
      LcaOrderNonZero(a, b);
    }
  }

  /** Below the least common ancestor the two chains reach distinct siblings,
    * whose divisions differ. */
  lemma LcaOrderNonZero(a: D2Node, b: D2Node)
    requires a.Valid() && b.Valid() && DistinctSiblings(a, b)
    ensures LcaOrder(Chain(a), Chain(b)) != 0
  {
    var A := Chain(a);
    var B := Chain(b);
    var fs := FirstShared(A, B, 0);
    if fs.Some? {
      var i := fs.value;
      var j := IndexOf(B, A[i]);
      if i > 0 && j > 0 {
        var x, y := A[i - 1], B[j - 1];
        assert x !in B;
        assert x.parent == A[i] == B[j] == y.parent;
        assert x in A && y in B;
        assert x.division != y.division;
        CompareOrder(x.division, y.division);
      }
    }
  }
}
