/** `get_size_format` (main.py:10-21): scale a byte count down by 1024 until it is
    below 1024 and name the unit reached. The byte count is a file size, so a
    natural number. For counts below 2^53, dividing by 1024 is exact in binary
    floating point, so the mantissa is modelled as an exact real and the unit choice
    is the one the script makes; for larger counts the script's first division
    rounds, which the model does not follow. Rendering the mantissa with two
    decimals is not modelled. */
module SizeFormat {

  /** The `factor` the script always uses. */
  const Factor: nat := 1024

  /** The units tried in turn; a value still too large after the last falls to "Y". */
  const Units: seq<string> := ["", "K", "M", "G", "T", "P", "E", "Z"]

  /** `Factor` to the power `k`. */
  function Pow(k: nat): (p: nat)
    ensures p >= 1
  {
    if k == 0 then 1 else Factor * Pow(k - 1)
  }

  /** The unit for index `k`, "Y" past the list. */
  function UnitName(k: nat): string
    requires k <= |Units|
  {
    if k < |Units| then Units[k] else "Y"
  }

  /** Below `Pow(k + 1)` is the range in which the `k`-th unit is chosen. */
  ghost predicate FitsUnit(b: nat, k: nat)
  {
    b < Pow(k + 1)
  }

  /** The search for the unit, from index `i` on, once every earlier unit is known to
      be too small. */
  function UnitIndexFrom(b: nat, i: nat): (k: nat)
    requires i <= |Units|
    requires forall j :: 0 <= j < i ==> !FitsUnit(b, j)
    ensures i <= k <= |Units|
    ensures k < |Units| ==> FitsUnit(b, k)
    ensures forall j :: 0 <= j < k ==> !FitsUnit(b, j)
    decreases |Units| - i
  {
    if i == |Units| || b < Pow(i + 1) then i else UnitIndexFrom(b, i + 1)
  }

  /** The index of the unit chosen for `b` bytes: the least `k` below 8 with
      `b < 1024^(k+1)`, or 8 ("Y") when there is none. */
  function UnitIndex(b: nat): (k: nat)
    ensures k <= |Units|
    ensures k < |Units| ==> FitsUnit(b, k)
    ensures forall j :: 0 <= j < k ==> !FitsUnit(b, j)
  {
    UnitIndexFrom(b, 0)
  }

  /** The least-index conditions determine the unit: any `i` meeting them is the
      index `UnitIndex` picks. */
  lemma UnitIndexUnique(b: nat, i: nat)
    requires i <= |Units|
    requires i < |Units| ==> FitsUnit(b, i)
    requires forall j :: 0 <= j < i ==> !FitsUnit(b, j)
    ensures UnitIndex(b) == i
  {
  }

  /** The unit is "Y" exactly when `b` is at least 1024^8. */
  lemma UnitYExactly(b: nat)
    ensures UnitIndex(b) == |Units| <==> Pow(|Units|) <= b
  {
    var k := UnitIndex(b);
    if k < |Units| {
      PowMonotone(k + 1, |Units|);
    }
  }

  lemma {:induction false} PowMonotone(i: nat, j: nat)
    requires i <= j
    ensures Pow(i) <= Pow(j)
    decreases j
  {
    if i < j {
      PowMonotone(i, j - 1);
    }
  }

  /** The worked examples in the docstring at main.py:14-15. */
  lemma DocstringExamples()
    ensures UnitName(UnitIndex(1253656)) == "M"
    ensures UnitName(UnitIndex(1253656678)) == "G"
  {
    assert Pow(1) == 1024 && Pow(2) == 1048576 && Pow(3) == 1073741824 && Pow(4) == 1099511627776;
    UnitIndexUnique(1253656, 2);
    UnitIndexUnique(1253656678, 3);
  }

  /** `b` after `b /= factor` has run `i` times: the value the loop holds when it
      reaches the unit with index `i`. */
  function Scaled(b: nat, i: nat): real
  {
    if i == 0 then b as real else Scaled(b, i - 1) / Factor as real
  }

  /** The value `get_size_format` prints before the unit. */
  function Mantissa(b: nat): real
  {
    Scaled(b, UnitIndex(b))
  }

  /** Dividing by 1024 is exact: the scaled value times `1024^i` is the byte count. */
  lemma {:induction false} ScaledExact(b: nat, i: nat)
    ensures Scaled(b, i) * Pow(i) as real == b as real
  {
    if i > 0 {
      ScaledExact(b, i - 1);
      assert Pow(i) as real == Factor as real * Pow(i - 1) as real;
    }
  }

  /** Comparing the scaled value with `c` is comparing the byte count with `c * 1024^i`. */
  lemma {:induction false} ScaledLess(b: nat, i: nat, c: real)
    ensures Scaled(b, i) < c <==> b as real < c * Pow(i) as real
  {
    if i > 0 {
      ScaledLess(b, i - 1, Factor as real * c);
      assert Pow(i) as real == Factor as real * Pow(i - 1) as real;
    }
  }

  /** The loop's test `b < factor` at the unit with index `i` holds exactly when that
      unit's range contains the byte count. */
  lemma StopTest(b: nat, i: nat)
    ensures Scaled(b, i) < Factor as real <==> FitsUnit(b, i)
  {
    ScaledLess(b, i, Factor as real);
    assert Pow(i + 1) as real == Factor as real * Pow(i) as real;
  }

  /** The mantissa is below 1024 unless the unit is "Y", and at least 1 unless the
      unit is the plain byte. */
  lemma MantissaRange(b: nat)
    ensures UnitIndex(b) < |Units| ==> Mantissa(b) < Factor as real
    ensures UnitIndex(b) > 0 ==> 1.0 <= Mantissa(b)
  {
    var k := UnitIndex(b);
    if k < |Units| {
      StopTest(b, k);
    }
    if k > 0 {
      ScaledLess(b, k, 1.0);
      assert !FitsUnit(b, k - 1);
    }
  }

  /** The loop of `get_size_format` with its default `factor`: it stops at the unit
      `UnitIndex` names, holding the byte count divided down to that unit. */
  method GetSizeFormat(b: nat) returns (mantissa: real, unit: string)
    ensures unit == UnitName(UnitIndex(b))
    ensures mantissa == Mantissa(b)
  {
    var x: real := b as real;
    var i := 0;
    while i < |Units|
      invariant 0 <= i <= |Units|
      invariant x == Scaled(b, i)
      invariant forall j :: 0 <= j < i ==> !FitsUnit(b, j)
    {
      StopTest(b, i);
      if x < Factor as real {
        UnitIndexUnique(b, i);
        return x, Units[i];
      }
      x := x / Factor as real;
      i := i + 1;
    }
    UnitIndexUnique(b, i);
    return x, "Y";
  }
}
