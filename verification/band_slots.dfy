/**
 The slot table `findLocations` builds. Each contour of each colour mask that
 survives the area filter becomes a candidate (colour, centroid column, area);
 candidates are visited colour by colour, 0 to 9, and folded into two sparse
 arrays keyed by centroid column, one holding the colour and one the area.

 A candidate is rejected only when some stored key lies within 10 columns of
 it and that slot's area is strictly larger. Otherwise it is `put` at its own
 column: a nearby slot of smaller or equal area is not removed (the deletion
 is commented out in the source), so both slots remain; only a slot at the
 very same column is overwritten.
 */
module BandSlots {
  import opened Wrappers
  import opened SparseIntArrays
  import opened Colours

  /** Contours with area at most this are noise. */
  const MinArea: int := 20

  /** Two centroids closer than this many columns are the same physical band. */
  const SlotRadius: int := 10

  /** One contour as the vision primitives report it: truncated area and centroid column. */
  datatype Region = Region(area: int, cx: int)

  /** A region tagged with the colour whose mask it came from. */
  datatype Candidate = Candidate(colour: ColourIndex, cx: int, area: int)

  /** `ValuesAtCentroid` (column to colour) and `areas` (column to area). */
  datatype Slots = Slots(colours: SparseIntArray, areas: SparseIntArray)

  /** The state `findLocations` starts from after `clear()` and `new SparseIntArray`. */
  const NoSlots := Slots(Empty, Empty)

  /**
   What every reachable table satisfies: both arrays well formed with the
   same key set, every stored colour a colour code, every stored area above
   the noise threshold.
   */
  predicate Inv(t: Slots) {
    && WellFormed(t)
    && (forall k :: k in t.colours.Keys() ==> 0 <= t.colours.Get(k) < Codes)
    && (forall k :: k in t.areas.Keys() ==> t.areas.Get(k) > MinArea)
  }

  /** Both arrays well formed, over the same key set. */
  predicate WellFormed(t: Slots) {
    t.colours.Valid() && t.areas.Valid() && t.colours.Keys() == t.areas.Keys()
  }

  function Abs(x: int): nat {
    if x < 0 then -x else x
  }

  /** `Math.abs(keyAt(locIdx) - cx) < 10`. */
  predicate Near(key: int, cx: int) {
    Abs(key - cx) < SlotRadius
  }

  /**
   The scan of lines 123-131 finds, at some index, a stored slot near `cx`
   with an area strictly larger than `area`. The blocking slot is a stored
   key, and an empty table blocks nothing.
   */
  function Blocked(t: Slots, cx: int, area: int): (r: bool)
    requires t.colours.Valid() && t.areas.Valid()
    ensures r ==> exists k :: k in t.colours.Keys() && Near(k, cx) && t.areas.Get(k) > area
    ensures t.colours.Size() == 0 ==> !r
  {
    exists i :: 0 <= i < t.colours.Size() && Near(t.colours.KeyAt(i), cx) && t.areas.Get(t.colours.KeyAt(i)) > area
  }

  /**
   Whether the candidate is stored: it passes the area filter and nothing
   nearby outweighs it. Into an empty table, exactly the candidates above
   the noise threshold are stored.
   */
  function Accepted(t: Slots, c: Candidate): (r: bool)
    requires t.colours.Valid() && t.areas.Valid()
    ensures r ==> c.area > MinArea
    ensures t.colours.Size() == 0 ==> (r <==> c.area > MinArea)
  {
    c.area > MinArea && !Blocked(t, c.cx, c.area)
  }

  /**
   The scan over existing slots that sets `shouldStoreLocation`, with its
   early `break` on the first nearby slot of larger area.
   */
  method ShouldStoreLocation(t: Slots, cx: int, area: int) returns (store: bool)
    requires t.colours.Valid() && t.areas.Valid()
    ensures store <==> !Blocked(t, cx, area)
  {
    store := true;
    var locIdx := 0;
    while locIdx < t.colours.Size()
      invariant 0 <= locIdx <= t.colours.Size()
      invariant store
      invariant forall j :: 0 <= j < locIdx ==>
        !(Near(t.colours.KeyAt(j), cx) && t.areas.Get(t.colours.KeyAt(j)) > area)
    {
      var key := t.colours.KeyAt(locIdx);
      if Abs(key - cx) < SlotRadius {
        if t.areas.Get(key) > area {
          store := false;
          break;
        }
      }
      locIdx := locIdx + 1;
    }
  }

  /** One iteration of the contour loop (lines 116-144). */
  function Step(t: Slots, c: Candidate): (r: Slots)
    requires Inv(t)
    ensures Inv(r)
    ensures Accepted(t, c) ==>
      && r.colours.Keys() == t.colours.Keys() + {c.cx}
      && r.colours.Lookup(c.cx) == Some(c.colour)
      && r.areas.Lookup(c.cx) == Some(c.area)
      && (forall k :: k != c.cx ==> r.colours.Lookup(k) == t.colours.Lookup(k))
      && (forall k :: k != c.cx ==> r.areas.Lookup(k) == t.areas.Lookup(k))
    ensures !Accepted(t, c) ==> r == t
  {
    if Accepted(t, c) then
      var r := Slots(t.colours.Put(c.cx, c.colour), t.areas.Put(c.cx, c.area));
      assert forall k :: k in r.colours.Keys() ==> 0 <= r.colours.Get(k) < Codes by {
        forall k | k in r.colours.Keys() ensures 0 <= r.colours.Get(k) < Codes {
          if k != c.cx {
            assert r.colours.Lookup(k) == t.colours.Lookup(k);
          }
        }
      }
      assert forall k :: k in r.areas.Keys() ==> r.areas.Get(k) > MinArea by {
        forall k | k in r.areas.Keys() ensures r.areas.Get(k) > MinArea {
          if k != c.cx {
            assert r.areas.Lookup(k) == t.areas.Lookup(k);
          }
        }
      }
      r
    else
      t
  }

  /**
   The rejection rule over the key set: a candidate that passes the area
   filter is stored unless some key closer than 10 columns holds a strictly
   larger area. A slot exactly 10 columns away, or one of equal area, never
   rejects it.
   */
  lemma AcceptedIff(t: Slots, c: Candidate)
    requires WellFormed(t)
    ensures Accepted(t, c) <==>
      c.area > MinArea && !exists k :: k in t.areas.Keys() && Abs(k - c.cx) < 10 && t.areas.Get(k) > c.area
  {
    if exists k :: k in t.areas.Keys() && Abs(k - c.cx) < 10 && t.areas.Get(k) > c.area {
      var k :| k in t.areas.Keys() && Abs(k - c.cx) < 10 && t.areas.Get(k) > c.area;
      BlockedByKey(t, c.cx, c.area, k);
    }
    if Blocked(t, c.cx, c.area) {
      var i :| 0 <= i < t.colours.Size() && Near(t.colours.KeyAt(i), c.cx) && t.areas.Get(t.colours.KeyAt(i)) > c.area;
      var k := t.colours.KeyAt(i);
      assert k in t.areas.Keys() && Abs(k - c.cx) < 10 && t.areas.Get(k) > c.area;
    }
  }

  /** A stored key near `cx` with a larger area is found by the index scan. */
  lemma BlockedByKey(t: Slots, cx: int, area: int, k: int)
    requires WellFormed(t) && k in t.areas.Keys() && Abs(k - cx) < 10 && t.areas.Get(k) > area
    ensures Blocked(t, cx, area)
  {
    assert k in t.colours.keys;
    var i :| 0 <= i < |t.colours.keys| && t.colours.keys[i] == k;
    assert t.colours.KeyAt(i) == k;
  }

  /** A nearby slot whose area does not exceed the candidate's stays, beside the new slot. */
  lemma NearbySmallerCoexists(t: Slots, c: Candidate, k: int)
    requires Inv(t) && Accepted(t, c)
    requires k in t.colours.Keys() && Near(k, c.cx) && k != c.cx
    ensures k in Step(t, c).colours.Keys() && c.cx in Step(t, c).colours.Keys()
    ensures SameAt(Step(t, c), t, k)
    ensures |Step(t, c).colours.Keys()| == |t.colours.Keys()| + 1 || c.cx in t.colours.Keys()
  {
  }

  /** The area filter's boundary: area 20 is noise, area 21 becomes a slot. */
  lemma AreaFilterBoundary()
    ensures !Accepted(NoSlots, Candidate(0, 40, 20))
    ensures Accepted(NoSlots, Candidate(0, 40, 21))
    ensures Step(NoSlots, Candidate(0, 40, 21)).colours.Keys() == {40}
  {
    assert Step(NoSlots, Candidate(0, 40, 21)).colours.Keys() == {} + {40};
  }

  /** The table after a brown band of area 50 at column 40. */
  function OneSlot(): (t: Slots)
    ensures Inv(t)
    ensures t.areas.Keys() == {40} && t.areas.Get(40) == 50
  {
    var t := Step(NoSlots, Candidate(1, 40, 50));
    assert t.colours.Keys() == {} + {40};
    t
  }

  /** Against a single slot, the rejection rule is one comparison of distance and one of area. */
  lemma SingleSlotAccepted(t: Slots, k: int, c: Candidate)
    requires Inv(t) && t.areas.Keys() == {k}
    ensures Accepted(t, c) <==> c.area > MinArea && !(Abs(k - c.cx) < 10 && t.areas.Get(k) > c.area)
  {
    AcceptedIff(t, c);
    assert k in t.areas.Keys();
  }

  /** The rejection rule's boundaries: distance 9 with a larger slot rejects, distance 10 or an equal area does not. */
  lemma RejectionBoundary()
    ensures !Accepted(OneSlot(), Candidate(3, 49, 30))
    ensures Accepted(OneSlot(), Candidate(3, 50, 30))
    ensures Accepted(OneSlot(), Candidate(3, 45, 50))
  {
    var one := OneSlot();
    SingleSlotAccepted(one, 40, Candidate(3, 49, 30));
    SingleSlotAccepted(one, 40, Candidate(3, 50, 30));
    SingleSlotAccepted(one, 40, Candidate(3, 45, 50));
  }

  /** The slot at `k` holds exactly candidate `c`. */
  predicate Holds(t: Slots, k: int, c: Candidate)
    requires t.colours.Valid() && t.areas.Valid()
  {
    c.cx == k && t.colours.Lookup(k) == Some(c.colour) && t.areas.Lookup(k) == Some(c.area)
  }

  /** Slots `t` and `u` agree at key `k`. */
  predicate SameAt(t: Slots, u: Slots, k: int)
    requires t.colours.Valid() && t.areas.Valid() && u.colours.Valid() && u.areas.Valid()
  {
    t.colours.Lookup(k) == u.colours.Lookup(k) && t.areas.Lookup(k) == u.areas.Lookup(k)
  }

  /**
   A band at column `cx` with area `area` has left a trace in `t`: a slot at
   that very column with at least that area, or a slot closer than 10
   columns with a strictly larger area.
   */
  predicate Covered(t: Slots, cx: int, area: int)
    requires t.areas.Valid()
  {
    exists k :: k in t.areas.Keys() && Near(k, cx) && (t.areas.Get(k) > area || (k == cx && t.areas.Get(k) >= area))
  }

  /** `Step` never removes a slot and never lowers a stored area: an overwrite needs an area at least as large. */
  lemma StepAreaMonotone(t: Slots, c: Candidate, k: int)
    requires Inv(t) && k in t.areas.Keys()
    ensures k in Step(t, c).areas.Keys() && Step(t, c).areas.Get(k) >= t.areas.Get(k)
  {
    if Accepted(t, c) {
      if k == c.cx {
        if t.areas.Get(k) > c.area {
          BlockedByKey(t, c.cx, c.area, k);
        }
      } else {
        assert Step(t, c).areas.Lookup(k) == t.areas.Lookup(k);
      }
    }
  }

  /** A candidate that passes the area filter is covered right after its step, stored or blocked. */
  lemma StepCovers(t: Slots, c: Candidate)
    requires Inv(t) && c.area > MinArea
    ensures Covered(Step(t, c), c.cx, c.area)
  {
    var r := Step(t, c);
    if Accepted(t, c) {
      assert c.cx in r.areas.Keys() && r.areas.Get(c.cx) == c.area;
    } else {
      var i :| 0 <= i < t.colours.Size() && Near(t.colours.KeyAt(i), c.cx) && t.areas.Get(t.colours.KeyAt(i)) > c.area;
      assert t.colours.KeyAt(i) in r.areas.Keys();
    }
  }

  /** Coverage survives every later step. */
  lemma CoveredStep(t: Slots, c: Candidate, cx: int, area: int)
    requires Inv(t) && Covered(t, cx, area)
    ensures Covered(Step(t, c), cx, area)
  {
    var k :| k in t.areas.Keys() && Near(k, cx) && (t.areas.Get(k) > area || (k == cx && t.areas.Get(k) >= area));
    StepAreaMonotone(t, c, k);
  }

  /**
   The candidates folded in order into `t`. No slot disappears, and every
   slot of the result is either untouched from `t` or holds, verbatim, some
   candidate that passed the area filter. Conversely every candidate that
   passed the area filter is covered in the result, and so is every band
   already covered in `t`.
   */
  function Fold(t: Slots, cs: seq<Candidate>): (r: Slots)
    requires Inv(t)
    ensures Inv(r)
    ensures t.colours.Keys() <= r.colours.Keys()
    ensures forall k :: k in r.colours.Keys() ==>
      SameAt(r, t, k) || exists i :: 0 <= i < |cs| && cs[i].area > MinArea && Holds(r, k, cs[i])
    ensures forall x, a :: Covered(t, x, a) ==> Covered(r, x, a)
    ensures forall i :: 0 <= i < |cs| && cs[i].area > MinArea ==> Covered(r, cs[i].cx, cs[i].area)
    decreases |cs|
  {
    if |cs| == 0 then t
    else
      var s := Step(t, cs[0]);
      var r := Fold(s, cs[1..]);
      assert forall x, a :: Covered(t, x, a) ==> Covered(r, x, a) by {
        forall x, a | Covered(t, x, a) ensures Covered(r, x, a) {
          CoveredStep(t, cs[0], x, a);
        }
      }
      assert forall i :: 0 <= i < |cs| && cs[i].area > MinArea ==> Covered(r, cs[i].cx, cs[i].area) by {
        forall i | 0 <= i < |cs| && cs[i].area > MinArea ensures Covered(r, cs[i].cx, cs[i].area) {
          if i == 0 {
            StepCovers(t, cs[0]);
          } else {
            assert cs[1..][i - 1] == cs[i];
          }
        }
      }
      assert forall k :: k in r.colours.Keys() ==>
        SameAt(r, t, k) || exists i :: 0 <= i < |cs| && cs[i].area > MinArea && Holds(r, k, cs[i]) by {
        forall k | k in r.colours.Keys()
          ensures SameAt(r, t, k) || exists i :: 0 <= i < |cs| && cs[i].area > MinArea && Holds(r, k, cs[i])
        {
          if SameAt(r, s, k) {
            if !SameAt(s, t, k) {
              assert Accepted(t, cs[0]) && k == cs[0].cx;
              assert Holds(r, k, cs[0]);
            }
          } else {
            var i :| 0 <= i < |cs[1..]| && cs[1..][i].area > MinArea && Holds(r, k, cs[1..][i]);
            assert cs[i + 1] == cs[1..][i];
          }
        }
      }
      r
  }

  /** The candidates of one colour's contour list, in contour order. */
  function ColourCandidates(i: ColourIndex, regions: seq<Region>): (cs: seq<Candidate>)
    ensures |cs| == |regions|
    ensures forall j :: 0 <= j < |cs| ==> cs[j] == Candidate(i, regions[j].cx, regions[j].area)
  {
    if |regions| == 0 then [] else [Candidate(i, regions[0].cx, regions[0].area)] + ColourCandidates(i, regions[1..])
  }

  /**
   The candidates of colours `from` onwards, colour by colour in code order
   (the outer loop of line 95): each is a region of the colour it is tagged
   with, and the colours never decrease along the sequence.
   */
  function CandidatesFrom(regions: seq<seq<Region>>, from: nat): (cs: seq<Candidate>)
    requires |regions| == Codes && from <= Codes
    ensures forall j :: 0 <= j < |cs| ==>
      from <= cs[j].colour && Region(cs[j].area, cs[j].cx) in regions[cs[j].colour]
    ensures forall j, k :: 0 <= j < k < |cs| ==> cs[j].colour <= cs[k].colour
    decreases Codes - from
  {
    if from == Codes then []
    else ColourCandidates(from, regions[from]) + CandidatesFrom(regions, from + 1)
  }

  /** No region is skipped: every region of a colour from `from` onwards becomes a candidate. */
  lemma {:induction false} CandidatesComplete(regions: seq<seq<Region>>, from: nat, c: ColourIndex, g: Region)
    requires |regions| == Codes && from <= c && g in regions[c]
    ensures Candidate(c, g.cx, g.area) in CandidatesFrom(regions, from)
    decreases Codes - from
  {
    var head := ColourCandidates(from, regions[from]);
    if c == from {
      var j :| 0 <= j < |regions[from]| && regions[from][j] == g;
      assert head[j] == Candidate(from, g.cx, g.area);
    } else {
      CandidatesComplete(regions, from + 1, c, g);
    }
  }

  /** Slot `k` of `t` records region `g` of colour `c`: its centroid, its colour, its area. */
  predicate Records(t: Slots, k: int, c: ColourIndex, g: Region)
    requires t.colours.Valid() && t.areas.Valid()
  {
    g.cx == k && g.area > MinArea && t.colours.Lookup(k) == Some(c) && t.areas.Lookup(k) == Some(g.area)
  }

  /**
   A table whose every slot holds an eligible candidate taken from the
   regions records, at each slot, a region of the stored colour.
   */
  lemma SlotsRecordRegions(r: Slots, regions: seq<seq<Region>>, cs: seq<Candidate>)
    requires WellFormed(r) && |regions| == Codes
    requires forall k :: k in r.colours.Keys() ==>
      SameAt(r, NoSlots, k) || exists i :: 0 <= i < |cs| && cs[i].area > MinArea && Holds(r, k, cs[i])
    requires forall j :: 0 <= j < |cs| ==> Region(cs[j].area, cs[j].cx) in regions[cs[j].colour]
    ensures forall k :: k in r.colours.Keys() ==>
      exists c: ColourIndex, g :: g in regions[c] && Records(r, k, c, g)
  {
    forall k | k in r.colours.Keys()
      ensures exists c: ColourIndex, g :: g in regions[c] && Records(r, k, c, g)
    {
      assert NoSlots.colours.Lookup(k) == None && r.colours.Lookup(k).Some?;
      assert !SameAt(r, NoSlots, k);
      var i :| 0 <= i < |cs| && cs[i].area > MinArea && Holds(r, k, cs[i]);
      var g := Region(cs[i].area, cs[i].cx);
      assert g in regions[cs[i].colour] && Records(r, k, cs[i].colour, g);
    }
  }

  /**
   `findLocations`: the slot table for the ten per-colour contour lists.
   It is well formed, and every slot records some region of the colour it
   stores, at that region's centroid, with that region's area, which is
   above the noise threshold. Conversely every region above the noise
   threshold, of any colour, is covered: stored at its centroid or
   outweighed by a nearby slot.
   */
  function FindLocations(regions: seq<seq<Region>>): (r: Slots)
    requires |regions| == Codes
    ensures Inv(r)
    ensures forall k :: k in r.colours.Keys() ==>
      exists c: ColourIndex, g :: g in regions[c] && Records(r, k, c, g)
    ensures forall c: ColourIndex, g :: g in regions[c] && g.area > MinArea ==> Covered(r, g.cx, g.area)
  {
    var cs := CandidatesFrom(regions, 0);
    var r := Fold(NoSlots, cs);
    SlotsRecordRegions(r, regions, cs);
    assert forall c: ColourIndex, g :: g in regions[c] && g.area > MinArea ==> Covered(r, g.cx, g.area) by {
      forall c: ColourIndex, g | g in regions[c] && g.area > MinArea ensures Covered(r, g.cx, g.area) {
        CandidatesComplete(regions, 0, c, g);
        var i :| 0 <= i < |cs| && cs[i] == Candidate(c, g.cx, g.area);
      }
    }
    r
  }
}
