/**
 Turning the slot table into a resistance reading (lines 57-76 of
 `processFrame`). The three leftmost slots give the tens digit, the units
 digit and the power of ten. The Java statement `value *= Math.pow(10, p)` is
 a compound assignment with an implicit narrowing of a double to int: for
 digits 0..9 the power and the product are exact doubles, so its only effect
 is to saturate at the largest int. The unit is chosen by fixed thresholds
 and the reading is drawn only when the value does not exceed 1e9.
 */
module Decoding {
  import opened Wrappers
  import opened SparseIntArrays
  import opened Colours
  import opened BandSlots

  /** Java's `Integer.MAX_VALUE` and `Integer.MIN_VALUE`. */
  const IntMax: int := 2147483647
  const IntMin: int := -2147483648

  /** Readings above this are treated as misdetections and not drawn. */
  const Ceiling: int := 1000000000

  /** `Math.pow(10, p)`, exact for the powers 0..9 the digits give. */
  function Pow10(p: nat): (r: nat)
    ensures r >= 1
    ensures p >= 1 ==> r >= 10 && r % 10 == 0
  {
    if p == 0 then 1 else 10 * Pow10(p - 1)
  }

  /** Narrowing of an integral double to int (JLS 5.1.3): values outside the int range saturate. */
  function NarrowToInt(x: int): (r: int)
    ensures IntMin <= r <= IntMax
    ensures IntMin <= x <= IntMax ==> r == x
    ensures x > IntMax ==> r == IntMax
    ensures x < IntMin ==> r == IntMin
  {
    if x > IntMax then IntMax else if x < IntMin then IntMin else x
  }

  datatype Unit = Ohm | Kohm | Mohm

  /** The divisor applied before printing a value in this unit. */
  function Scale(u: Unit): (d: nat)
    ensures d > 0
  {
    match u
    case Ohm => 1
    case Kohm => 1000
    case Mohm => 1000000
  }

  /** The unit branch of lines 69-74: exactly one of the three applies. */
  function UnitFor(value: int): (u: Unit)
    ensures u == Kohm <==> 1000 <= value < 1000000
    ensures u == Mohm <==> value >= 1000000
    ensures u == Ohm <==> value < 1000
  {
    if value >= 1000 && value < 1000000 then Kohm
    else if value >= 1000000 then Mohm
    else Ohm
  }

  /** A decoded frame: the int value, its unit, and whether it is drawn. */
  datatype Reading = Reading(value: int, unit: Unit, shown: bool)

  /** The number printed before the unit, as an exact rational. */
  function Quantity(r: Reading): real {
    r.value as real / Scale(r.unit) as real
  }

  /** The exact resistance the three digits encode, before the int cast. */
  function Exact(tens: ColourIndex, units: ColourIndex, power: ColourIndex): nat {
    (10 * tens + units) * Pow10(power)
  }

  /** The reading for three band digits, with Java's saturating int cast. */
  function ReadingOf(tens: ColourIndex, units: ColourIndex, power: ColourIndex): (r: Reading)
    ensures 0 <= r.value <= IntMax
    ensures r.value == if Exact(tens, units, power) <= IntMax then Exact(tens, units, power) else IntMax
    ensures r.unit == UnitFor(r.value)
    ensures r.shown <==> r.value <= Ceiling
  {
    var value := 10 * tens + units;
    var scaled := NarrowToInt(value * Pow10(power));
    Reading(scaled, UnitFor(scaled), scaled <= Ceiling)
  }

  /** The saturation never shows: a reading is drawn exactly when the exact value is within the ceiling, and then it is exact. */
  lemma ShownIffExactWithinCeiling(tens: ColourIndex, units: ColourIndex, power: ColourIndex)
    ensures ReadingOf(tens, units, power).shown <==> Exact(tens, units, power) <= Ceiling
    ensures ReadingOf(tens, units, power).shown ==> ReadingOf(tens, units, power).value == Exact(tens, units, power)
  {
  }

  /** The printed number lies in [1, 1000) for kilo-ohms, in [1, 1000] for a drawn mega-ohm reading, and is the value itself for ohms. */
  lemma QuantityBounds(r: Reading)
    requires r.unit == UnitFor(r.value) && (r.shown <==> r.value <= Ceiling)
    ensures Quantity(r) * Scale(r.unit) as real == r.value as real
    ensures r.unit == Ohm ==> Quantity(r) == r.value as real
    ensures r.unit == Kohm ==> 1.0 <= Quantity(r) < 1000.0
    ensures r.unit == Mohm ==> 1.0 <= Quantity(r)
    ensures r.unit == Mohm && r.shown ==> Quantity(r) <= 1000.0
  {
    var q := Quantity(r);
    var d := Scale(r.unit) as real;
    assert q * d == r.value as real;
    if r.unit == Kohm {
      assert 1000.0 <= r.value as real < 1000000.0;
    } else if r.unit == Mohm {
      assert 1000000.0 <= r.value as real;
      if r.shown {
        assert r.value as real <= 1000000000.0;
      }
    }
  }

  /** Worked examples of the colour code and the display ceiling. */
  lemma ReadingExamples()
    ensures ReadingOf(4, 7, 3) == Reading(47000, Kohm, true) && Quantity(ReadingOf(4, 7, 3)) == 47.0
    ensures ReadingOf(1, 0, 6) == Reading(10000000, Mohm, true) && Quantity(ReadingOf(1, 0, 6)) == 10.0
    ensures ReadingOf(2, 2, 0) == Reading(22, Ohm, true) && Quantity(ReadingOf(2, 2, 0)) == 22.0
    ensures ReadingOf(1, 0, 8) == Reading(1000000000, Mohm, true)
    ensures ReadingOf(1, 1, 8) == Reading(1100000000, Mohm, false)
    ensures ReadingOf(2, 2, 9) == Reading(IntMax, Mohm, false)
  {
    assert Pow10(3) == 1000;
    assert Pow10(6) == 1000000;
    assert Pow10(8) == 100000000;
    assert Pow10(9) == 1000000000;
  }

  /** Ascending keys never decrease along the array. */
  lemma Monotone(a: seq<int>, i: nat, j: nat)
    requires Increasing(a) && i <= j < |a|
    ensures a[i] <= a[j]
  {
  }

  /** `k0 < k1 < k2` are the three smallest members of `keys`. */
  predicate ThreeSmallest(keys: set<int>, k0: int, k1: int, k2: int) {
    && k0 < k1 < k2
    && k0 in keys && k1 in keys && k2 in keys
    && forall k :: k in keys ==> k == k0 || k == k1 || k >= k2
  }

  /** The colour stored at slot `k`, a digit 0..9. */
  function DigitAt(t: Slots, k: int): ColourIndex
    requires Inv(t) && k in t.colours.Keys()
  {
    t.colours.Get(k)
  }

  /**
   Lines 57-66: no reading unless the table has at least three slots;
   otherwise the reading of the digits at the three smallest keys, in
   ascending key order.
   */
  function Decode(t: Slots): (r: Option<Reading>)
    requires Inv(t)
    ensures r.Some? <==> |t.colours.Keys()| >= 3
    ensures r.Some? ==> t.colours.Size() >= 3
    ensures r.Some? ==>
      && ThreeSmallest(t.colours.Keys(), t.colours.KeyAt(0), t.colours.KeyAt(1), t.colours.KeyAt(2))
      && r.value == ReadingOf(DigitAt(t, t.colours.KeyAt(0)), DigitAt(t, t.colours.KeyAt(1)), DigitAt(t, t.colours.KeyAt(2)))
  {
    SizeIsCard(t.colours);
    if t.colours.Size() >= 3 then
      var kTens := t.colours.KeyAt(0);
      var kUnits := t.colours.KeyAt(1);
      var kPower := t.colours.KeyAt(2);
      assert forall k :: k in t.colours.Keys() ==> k == kTens || k == kUnits || k >= kPower by {
        forall k | k in t.colours.Keys() ensures k == kTens || k == kUnits || k >= kPower {
          var j :| 0 <= j < |t.colours.keys| && t.colours.keys[j] == k;
          assert j == 0 || j == 1 || j >= 2;
          if j > 2 {
            assert t.colours.keys[2] < t.colours.keys[j];
          }
        }
      }
      Some(ReadingOf(DigitAt(t, kTens), DigitAt(t, kUnits), DigitAt(t, kPower)))
    else
      None
  }

  /**
   The reading depends only on the key set and the stored colours: whichever
   three keys are the three smallest give the tens, units and power digits.
   */
  lemma DecodeThreeSmallest(t: Slots, k0: int, k1: int, k2: int)
    requires Inv(t) && ThreeSmallest(t.colours.Keys(), k0, k1, k2)
    ensures Decode(t) == Some(ReadingOf(DigitAt(t, k0), DigitAt(t, k1), DigitAt(t, k2)))
  {
    var a := t.colours.keys;
    assert k0 in a && k1 in a && k2 in a;
    var i0 :| 0 <= i0 < |a| && a[i0] == k0;
    var i1 :| 0 <= i1 < |a| && a[i1] == k1;
    var i2 :| 0 <= i2 < |a| && a[i2] == k2;
    Monotone(a, 0, i0);
    assert a[0] in t.colours.Keys();
    assert a[0] == k0;
    assert i1 >= 1 && i2 >= 1;
    Monotone(a, 1, i1);
    assert a[1] in t.colours.Keys();
    assert a[1] == k1;
    assert i2 >= 2;
    Monotone(a, 2, i2);
    assert a[2] in t.colours.Keys();
    assert a[2] == k2;
    SizeIsCard(t.colours);
  }
}
