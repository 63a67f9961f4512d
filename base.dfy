// Shared vocabulary: optional values, results with the engine's error codes,
// and a few string helpers used by several modules.

module Base {

  datatype Option<T> = None | Some(value: T)

  /** The error conditions the modelled code raises (XQuery error codes and the
    * Java exceptions it lets escape). */
  datatype ErrorCode =
    | ErrTypeInappropriateType             // err:XPTY0004
    | ErrInvalidValueForCast               // err:FORG0001
    | ErrCodePointNotValid                 // err:FOCH0001
    | ErrUnsupportedCollation              // err:FOCH0002
    | ErrCommentWouldContainIllegalHyphens // err:XQDY0072
    | ErrIllegalNameOfConstructedAttribute // err:XQDY0044
    | ErrUpdateInsertTargetIsEmptySequence
    | ErrUpdateReplaceTargetNotAEatcpNode
    | ErrIllegalState                      // bit:BIT0000-style illegal state
    | ErrOther(code: nat)                  // any other dynamic error passed through
    | IllegalArgument                      // java.lang.IllegalArgumentException
    | DocumentError                        // DocumentException
    | OperationNotSupported                // OperationNotSupportedException
    | NoSuchElement                        // java.util.NoSuchElementException
    | IndexOutOfBounds                     // java.lang.ArrayIndexOutOfBoundsException
    | ClassCast                            // java.lang.ClassCastException
    | NullPointer                          // java.lang.NullPointerException

  datatype Result<T> = Ok(value: T) | Err(error: ErrorCode)

  /** `sub` occurs somewhere inside `s`. */
  predicate Contains(s: string, sub: string)
  {
    exists k :: 0 <= k <= |s| - |sub| && OccursAt(s, sub, k)
  }

  predicate OccursAt(s: string, sub: string, k: int)
  {
    0 <= k <= |s| - |sub| && s[k..k + |sub|] == sub
  }

  predicate EndsWith(s: string, suffix: string)
  {
    |suffix| <= |s| && s[|s| - |suffix|..] == suffix
  }

  /** The parts separated by `sep`, as Java's StringBuilder loops build them. */
  function JoinWith(sep: string, parts: seq<string>): (r: string)
    ensures parts == [] ==> r == []
    ensures |parts| == 1 ==> r == parts[0]
  {
    if parts == [] then []
    else if |parts| == 1 then parts[0]
    else parts[0] + sep + JoinWith(sep, parts[1..])
  }

  /** Index-wise view of a two-part join, used to reason about joined strings. */
  lemma {:induction false} JoinWithSnoc(sep: string, parts: seq<string>, last: string)
    requires parts != []
    ensures JoinWith(sep, parts + [last]) == JoinWith(sep, parts) + sep + last
  {
    if |parts| == 1 {
      assert parts + [last] == [parts[0], last];
    } else {
      assert (parts + [last])[1..] == parts[1..] + [last];
      JoinWithSnoc(sep, parts[1..], last);
    }
  }

  function DigitChar(d: nat): (c: char)
    requires d < 10
    ensures '0' <= c <= '9'
  {
    ['0', '1', '2', '3', '4', '5', '6', '7', '8', '9'][d]
  }

  /** Decimal rendering of a natural number, as Java prints a non-negative int. */
  function NatToString(n: nat): (r: string)
    ensures |r| >= 1 && forall k :: 0 <= k < |r| ==> '0' <= r[k] <= '9'
  {
    if n < 10 then [DigitChar(n)] else NatToString(n / 10) + [DigitChar(n % 10)]
  }
}
