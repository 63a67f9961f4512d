// fn:codepoints-to-string (section 7.2.1 of XQuery 1.0 and XPath 2.0
// Functions and Operators): every code point must be a legal XML character,
// and the string is assembled from them in order. Strings are modelled as
// their UTF-16 code units, as Java holds them.

module CodepointsToString {
  import opened Base

  /** The code points of the argument (each item's intValue()); None is a
    * null argument. */
  type Argument = Option<seq<int>>

  /** The legality test as the source writes it: outside the low range and not
    * a tab, newline or carriage return, and outside both upper ranges, is
    * illegal. Equivalently, the legal XML characters. */
  function IsLegal(cp: int): (r: bool)
    ensures r <==> cp == 0x9 || cp == 0xA || cp == 0xD || 0x20 <= cp <= 0xD7FF ||
                   0xE000 <= cp <= 0xFFFD || 0x10000 <= cp <= 0x10FFFF
  {
    !((cp < 0x20 || cp > 0xD7FF) && cp != 0x9 && cp != 0xA && cp != 0xD &&
      (cp < 0xE000 || cp > 0xFFFD) && (cp < 0x10000 || cp > 0x10FFFF))
  }

  predicate AllLegal(cps: seq<int>)
  {
    forall k :: 0 <= k < |cps| ==> IsLegal(cps[k])
  }

  /** The UTF-16 code units of one code point. */
  function Units(cp: int): (r: seq<int>)
    requires IsLegal(cp)
    ensures 1 <= |r| <= 2 && (|r| == 2 <==> cp >= 0x10000)
  {
    if cp < 0x10000 then [cp]
    else [0xD800 + (cp - 0x10000) / 0x400, 0xDC00 + (cp - 0x10000) % 0x400]
  }

  /** The string of legal code points, as UTF-16. */
  function Encode(cps: seq<int>): seq<int>
    requires AllLegal(cps)
  {
    if cps == [] then [] else Units(cps[0]) + Encode(cps[1..])
  }

  /** Reading UTF-16 code units back as code points: a high surrogate followed
    * by a low one is one supplementary code point. */
  function Decode(units: seq<int>): seq<int>
  {
    if units == [] then []
    else if |units| >= 2 && 0xD800 <= units[0] <= 0xDBFF && 0xDC00 <= units[1] <= 0xDFFF then
      [0x10000 + (units[0] - 0xD800) * 0x400 + (units[1] - 0xDC00)] + Decode(units[2..])
    else [units[0]] + Decode(units[1..])
  }

  /** The assembled string reads back as exactly the code points given. */
  lemma {:induction false} DecodeEncode(cps: seq<int>)
    requires AllLegal(cps)
    ensures Decode(Encode(cps)) == cps
  {
    if cps != [] {
      var u := Units(cps[0]);
      var rest := Encode(cps[1..]);
      DecodeEncode(cps[1..]);
      if cps[0] < 0x10000 {
        assert (u + rest)[1..] == rest;
      } else {
        assert (u + rest)[2..] == rest;
      }
    }
  }

  /** The result for each argument, or the error for an illegal code point. */
  function CodepointsToString(arg: Argument): (r: Result<seq<int>>)
    ensures arg.None? || arg.value == [] ==> r == Ok([])
    ensures arg.Some? ==> (r.Err? <==> !AllLegal(arg.value))
    ensures r.Err? ==> r.error == ErrCodePointNotValid
    ensures r.Ok? && arg.Some? ==> Decode(r.value) == arg.value
  {
    if arg.None? then Ok([])
    else if AllLegal(arg.value) then
      DecodeEncode(arg.value);
      Ok(Encode(arg.value))
    else Err(ErrCodePointNotValid)
  }

  lemma {:induction false} EncodeSnoc(cps: seq<int>, cp: int)
    requires AllLegal(cps) && IsLegal(cp)
    ensures AllLegal(cps + [cp]) && Encode(cps + [cp]) == Encode(cps) + Units(cp)
  {
    assert forall k :: 0 <= k < |cps| ==> cps[k] == (cps + [cp])[k];
    assert (cps + [cp])[|cps|] == cp;
    if cps != [] {
      assert (cps + [cp])[1..] == cps[1..] + [cp];
      EncodeSnoc(cps[1..], cp);
    }
  }

  /** execute, appending every unit of each code point. */
  method Execute(arg: Argument) returns (r: Result<seq<int>>)
    ensures r == CodepointsToString(arg)
  {
    if arg.None? {
      return Ok([]);
    }
    var cps := arg.value;
    if cps == [] {
      return Ok([]);
    }
    var sb: seq<int> := [];
    for k := 0 to |cps|
      invariant AllLegal(cps[..k]) && sb == Encode(cps[..k])
    {
      if !IsLegal(cps[k]) {
        return Err(ErrCodePointNotValid);
      }
      assert cps[..k + 1] == cps[..k] + [cps[k]];
      EncodeSnoc(cps[..k], cps[k]);
      sb := sb + Units(cps[k]);
    }
    assert cps[..|cps|] == cps;
    r := Ok(sb);
  }

  /** Character.toChars(cp)[0]: the only unit of a BMP code point, the high
    * surrogate of a supplementary one. */
  function FirstUnit(cp: int): int
    requires IsLegal(cp)
  {
    Units(cp)[0]
  }

  function FirstUnits(cps: seq<int>): (r: seq<int>)
    requires AllLegal(cps)
    ensures |r| == |cps|
  {
    if cps == [] then [] else [FirstUnit(cps[0])] + FirstUnits(cps[1..])
  }

  lemma {:induction false} FirstUnitsSnoc(cps: seq<int>, cp: int)
    requires AllLegal(cps) && IsLegal(cp)
    ensures AllLegal(cps + [cp]) && FirstUnits(cps + [cp]) == FirstUnits(cps) + [FirstUnit(cp)]
  {
    assert forall k :: 0 <= k < |cps| ==> cps[k] == (cps + [cp])[k];
    assert (cps + [cp])[|cps|] == cp;
    if cps != [] {
      assert (cps + [cp])[1..] == cps[1..] + [cp];
      FirstUnitsSnoc(cps[1..], cp);
    }
  }

  /** execute as the source has it: one unit per code point, the first of its
    * UTF-16 units. */
  method ExecuteAsWritten(arg: Argument) returns (r: Result<seq<int>>)
    ensures arg.None? || arg.value == [] ==> r == Ok([])
    ensures arg.Some? && !AllLegal(arg.value) ==> r == Err(ErrCodePointNotValid)
    ensures arg.Some? && AllLegal(arg.value) ==> r == Ok(FirstUnits(arg.value))
  {
    if arg.None? {
      return Ok([]);
    }
    var cps := arg.value;
    if cps == [] {
      return Ok([]);
    }
    var sb: seq<int> := [];
    for k := 0 to |cps|
      invariant AllLegal(cps[..k]) && sb == FirstUnits(cps[..k])
    {
      if !IsLegal(cps[k]) {
        assert !AllLegal(cps);
        return Err(ErrCodePointNotValid);
      }
      assert cps[..k + 1] == cps[..k] + [cps[k]];
      FirstUnitsSnoc(cps[..k], cps[k]);
      sb := sb + [FirstUnit(cps[k])];
    }
    assert cps[..|cps|] == cps;
    r := Ok(sb);
  }

  /** Below 0x10000 the source's result is the correct one: one character per
    * code point, in order. */
  lemma {:induction false} AsWrittenAgreesOnBmp(cps: seq<int>)
    requires AllLegal(cps) && forall k :: 0 <= k < |cps| ==> cps[k] < 0x10000
    ensures FirstUnits(cps) == Encode(cps) && FirstUnits(cps) == cps
  {
    if cps != [] {
      AsWrittenAgreesOnBmp(cps[1..]);
    }
  }

  /** A supplementary code point loses its low surrogate: U+1F600 comes out
    * as the lone unit 0xD83D, which reads back as 0xD83D, not U+1F600. */
  lemma SupplementaryCounterexample()
    ensures FirstUnits([0x1F600]) == [0xD83D]
    ensures Decode(FirstUnits([0x1F600])) == [0xD83D] != [0x1F600]
    ensures CodepointsToString(Some([0x1F600])) == Ok([0xD83D, 0xDE00])
  {
    assert IsLegal([0x1F600][0]);
    assert AllLegal([0x1F600]);
    assert [0x1F600][1..] == [];
    assert Units(0x1F600) == [0xD83D, 0xDE00];
    assert Encode([0x1F600]) == Units(0x1F600) + Encode([]);
    assert Encode([0x1F600]) == [0xD83D, 0xDE00];
    assert CodepointsToString(Some([0x1F600])) == Ok(Encode([0x1F600]));
  }
}
