/**
 One call of `processFrame`: crop the fixed window, detect the band slots in
 it, and decode them. The vision primitives that turn the cropped window into
 per-colour contour lists are outside the model, so those lists are the input.
 */
module Frames {
  import opened Wrappers
  import opened Crop
  import opened Colours
  import opened BandSlots
  import opened Decoding

  /** What a frame yields: the analysis window, the slot table and the reading, if any. */
  datatype FrameOutput = FrameOutput(window: Window, slots: Slots, reading: Option<Reading>)

  /**
   `processFrame` for a `rows` by `cols` frame whose window produced the
   per-colour contour lists `regions`. A frame too small for the window
   fails at `submat`; otherwise the reading is present exactly when at
   least three slots were found. Every slot records a contour of its
   colour, and every contour above the noise threshold is covered.
   */
  function ProcessFrame(rows: nat, cols: nat, regions: seq<seq<Region>>): (r: Result<FrameOutput, CropError>)
    requires |regions| == Codes
    ensures r.Success? <==> rows / 2 >= HalfHeight && cols / 2 >= HalfWidth
    ensures r.Success? ==> r.value.window == CropWindow(rows, cols) && Fits(r.value.window, rows, cols)
    ensures r.Success? ==> Inv(r.value.slots) && r.value.reading == Decode(r.value.slots)
    ensures r.Success? ==> (r.value.reading.Some? <==> |r.value.slots.colours.Keys()| >= 3)
    ensures r.Success? ==> forall k :: k in r.value.slots.colours.Keys() ==>
      exists c: ColourIndex, g :: g in regions[c] && Records(r.value.slots, k, c, g)
    ensures r.Success? ==> forall c: ColourIndex, g :: g in regions[c] && g.area > MinArea ==>
      Covered(r.value.slots, g.cx, g.area)
  {
    match Submat(rows, cols)
    case Failure(e) => Failure(e)
    case Success(w) =>
      var slots := FindLocations(regions);
      Success(FrameOutput(w, slots, Decode(slots)))
  }

  /**
   Candidates that all pass the area filter and whose centroids are at least
   a slot radius from each other and from every slot already in `t`.
   */
  predicate Separated(t: Slots, cs: seq<Candidate>)
    requires t.areas.Valid()
  {
    && (forall i :: 0 <= i < |cs| ==> cs[i].area > MinArea)
    && (forall i, k :: 0 <= i < |cs| && k in t.areas.Keys() ==> Abs(k - cs[i].cx) >= SlotRadius)
    && (forall i, j :: 0 <= i < j < |cs| ==> Abs(cs[i].cx - cs[j].cx) >= SlotRadius)
  }

  /** `Step` for a candidate at least a slot radius away from every stored key: it gets a new slot. */
  function AddFarBand(t: Slots, c: Candidate): (r: Slots)
    requires Inv(t) && c.area > MinArea
    requires forall k :: k in t.areas.Keys() ==> Abs(k - c.cx) >= SlotRadius
    ensures Inv(r)
    ensures r.colours.Keys() == t.colours.Keys() + {c.cx} && r.areas.Keys() == r.colours.Keys()
    ensures r.colours.Lookup(c.cx) == Some(c.colour)
    ensures forall k :: k != c.cx ==> r.colours.Lookup(k) == t.colours.Lookup(k)
  {
    AcceptedIff(t, c);
    Step(t, c)
  }

  /** The centroid columns of a list of candidates. */
  function Columns(cs: seq<Candidate>): (s: set<int>)
    ensures forall i :: 0 <= i < |cs| ==> cs[i].cx in s
    ensures forall x :: x in s ==> exists i :: 0 <= i < |cs| && cs[i].cx == x
  {
    set i | 0 <= i < |cs| :: cs[i].cx
  }

  /**
   Well separated bands never merge: each gets a slot of its own at its
   centroid holding its colour, and the slots already present are kept.
   */
  lemma {:induction false} SeparatedBandsSlots(t: Slots, cs: seq<Candidate>)
    requires Inv(t) && Separated(t, cs)
    ensures Fold(t, cs).colours.Keys() == t.colours.Keys() + Columns(cs)
    ensures forall i :: 0 <= i < |cs| ==> Fold(t, cs).colours.Lookup(cs[i].cx) == Some(cs[i].colour)
    ensures forall k :: k in t.colours.Keys() ==> Fold(t, cs).colours.Lookup(k) == t.colours.Lookup(k)
    decreases |cs|
  {
    if |cs| > 0 {
      var s := AddFarBand(t, cs[0]);
      var rest := cs[1..];
      SeparatedTail(t, s, cs);
      SeparatedBandsSlots(s, rest);
      FoldFarHead(t, cs);
      ColumnsCons(cs);
      CombineHead(t, s, Fold(s, rest), cs);
    }
  }

  /** The inductive step of `SeparatedBandsSlots`: the head's slot plus the tail's slots. */
  lemma CombineHead(t: Slots, s: Slots, r: Slots, cs: seq<Candidate>)
    requires WellFormed(t) && WellFormed(s) && WellFormed(r) && Separated(t, cs) && |cs| > 0
    requires s.colours.Keys() == t.colours.Keys() + {cs[0].cx}
    requires s.colours.Lookup(cs[0].cx) == Some(cs[0].colour)
    requires forall k :: k != cs[0].cx ==> s.colours.Lookup(k) == t.colours.Lookup(k)
    requires forall i :: 0 <= i < |cs[1..]| ==> r.colours.Lookup(cs[1..][i].cx) == Some(cs[1..][i].colour)
    requires forall k :: k in s.colours.Keys() ==> r.colours.Lookup(k) == s.colours.Lookup(k)
    ensures forall i :: 0 <= i < |cs| ==> r.colours.Lookup(cs[i].cx) == Some(cs[i].colour)
    ensures forall k :: k in t.colours.Keys() ==> r.colours.Lookup(k) == t.colours.Lookup(k)
  {
    var rest := cs[1..];
    forall i | 0 <= i < |cs| ensures r.colours.Lookup(cs[i].cx) == Some(cs[i].colour) {
      if i > 0 {
        assert rest[i - 1] == cs[i];
      } else {
        assert cs[0].cx in s.colours.Keys();
      }
    }
    forall k | k in t.colours.Keys() ensures r.colours.Lookup(k) == t.colours.Lookup(k) {
      assert k != cs[0].cx by {
        assert k in t.areas.Keys();
        assert Abs(k - cs[0].cx) >= SlotRadius;
      }
      assert k in s.colours.Keys();
    }
  }

  /** After the first of a separated list gets its slot, the rest is still separated. */
  lemma SeparatedTail(t: Slots, s: Slots, cs: seq<Candidate>)
    requires t.areas.Valid() && s.areas.Valid() && Separated(t, cs) && |cs| > 0
    requires s.areas.Keys() == t.areas.Keys() + {cs[0].cx}
    ensures Separated(s, cs[1..])
  {
    var rest := cs[1..];
    forall i, k | 0 <= i < |rest| && k in s.areas.Keys() ensures Abs(k - rest[i].cx) >= SlotRadius {
      assert rest[i] == cs[i + 1];
    }
    forall i, j | 0 <= i < j < |rest| ensures Abs(rest[i].cx - rest[j].cx) >= SlotRadius {
      assert rest[i] == cs[i + 1] && rest[j] == cs[j + 1];
    }
  }

  /** Folding a separated list starts by giving its first candidate a new slot. */
  lemma FoldFarHead(t: Slots, cs: seq<Candidate>)
    requires Inv(t) && Separated(t, cs) && |cs| > 0
    ensures Fold(t, cs) == Fold(AddFarBand(t, cs[0]), cs[1..])
  {
    assert AddFarBand(t, cs[0]) == Step(t, cs[0]);
  }

  /** The columns of a non-empty list are its head's column and the columns of its tail. */
  lemma ColumnsCons(cs: seq<Candidate>)
    requires |cs| > 0
    ensures Columns(cs) == {cs[0].cx} + Columns(cs[1..])
  {
    var rest := cs[1..];
    forall x | x in Columns(cs) ensures x in {cs[0].cx} + Columns(rest) {
      var i :| 0 <= i < |cs| && cs[i].cx == x;
      if i > 0 {
        assert rest[i - 1] == cs[i];
      }
    }
    forall x | x in Columns(rest) ensures x in Columns(cs) {
      var i :| 0 <= i < |rest| && rest[i].cx == x;
      assert cs[i + 1] == rest[i];
    }
  }

  /**
   Three separated bands, visited in any order, decode left to right: the
   leftmost gives the tens digit, the middle one the units digit, the
   rightmost the power of ten.
   */
  lemma SeparatedBandsDecode(cs: seq<Candidate>, left: Candidate, mid: Candidate, right: Candidate)
    requires Separated(NoSlots, cs) && |cs| == 3
    requires left in cs && mid in cs && right in cs && left.cx < mid.cx < right.cx
    ensures Decode(Fold(NoSlots, cs)) == Some(ReadingOf(left.colour, mid.colour, right.colour))
  {
    SeparatedBandsSlots(NoSlots, cs);
    assert NoSlots.colours.Keys() == {};
    DecodeSeparatedSlots(Fold(NoSlots, cs), cs, left, mid, right);
  }

  /** A table whose slots are exactly those of three candidates decodes their colours in column order. */
  lemma DecodeSeparatedSlots(t: Slots, cs: seq<Candidate>, left: Candidate, mid: Candidate, right: Candidate)
    requires Inv(t) && t.colours.Keys() == {} + Columns(cs)
    requires forall i :: 0 <= i < |cs| ==> t.colours.Lookup(cs[i].cx) == Some(cs[i].colour)
    requires |cs| == 3 && left in cs && mid in cs && right in cs && left.cx < mid.cx < right.cx
    ensures Decode(t) == Some(ReadingOf(left.colour, mid.colour, right.colour))
  {
    ThreeColumns(cs, left, mid, right);
    assert t.colours.Lookup(left.cx) == Some(left.colour) by {
      var a :| 0 <= a < 3 && cs[a] == left;
    }
    assert t.colours.Lookup(mid.cx) == Some(mid.colour) by {
      var b :| 0 <= b < 3 && cs[b] == mid;
    }
    assert t.colours.Lookup(right.cx) == Some(right.colour) by {
      var c :| 0 <= c < 3 && cs[c] == right;
    }
    DecodeThreeSlots(t, left, mid, right);
  }

  /** A table of exactly three slots decodes their colours in column order. */
  lemma DecodeThreeSlots(t: Slots, left: Candidate, mid: Candidate, right: Candidate)
    requires Inv(t) && t.colours.Keys() == {left.cx, mid.cx, right.cx} && left.cx < mid.cx < right.cx
    requires t.colours.Lookup(left.cx) == Some(left.colour)
    requires t.colours.Lookup(mid.cx) == Some(mid.colour)
    requires t.colours.Lookup(right.cx) == Some(right.colour)
    ensures Decode(t) == Some(ReadingOf(left.colour, mid.colour, right.colour))
  {
    ThreeSmallestOfThree(t.colours.Keys(), left.cx, mid.cx, right.cx);
    DecodeThreeSmallest(t, left.cx, mid.cx, right.cx);
  }

  /** In a set of exactly three keys, the three in ascending order are the three smallest. */
  lemma ThreeSmallestOfThree(s: set<int>, k0: int, k1: int, k2: int)
    requires s == {k0, k1, k2} && k0 < k1 < k2
    ensures ThreeSmallest(s, k0, k1, k2)
  {
  }

  /** Three members of a three-element list with distinct columns account for all its columns. */
  lemma ThreeColumns(cs: seq<Candidate>, left: Candidate, mid: Candidate, right: Candidate)
    requires |cs| == 3 && left in cs && mid in cs && right in cs && left.cx < mid.cx < right.cx
    ensures Columns(cs) == {left.cx, mid.cx, right.cx}
  {
    var a :| 0 <= a < 3 && cs[a] == left;
    var b :| 0 <= b < 3 && cs[b] == mid;
    var c :| 0 <= c < 3 && cs[c] == right;
    assert a != b && b != c && a != c;
    forall x | x in Columns(cs) ensures x in {left.cx, mid.cx, right.cx} {
      var i :| 0 <= i < |cs| && cs[i].cx == x;
      assert i == a || i == b || i == c;
    }
  }
}
