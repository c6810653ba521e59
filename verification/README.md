# Resistor scanner: per-frame band detection and decoding

A Dafny model of the decision logic of `ResistorImageProcessor.processFrame`
in the Resistor Scanner Android app. For every camera frame the app crops a
fixed 40 by 120 pixel window at the centre, classifies the window's pixels
into the ten resistor colour codes by inclusive HSV ranges (red as the union of
two ranges), collects the contours of each colour mask, and folds those
contours into a table of band "slots" keyed by centroid column. When at least
three slots exist it reads the three leftmost ones as tens digit, units digit
and power of ten, computes the value with Java's saturating int cast, picks the
unit (ohm, Kohm, Mohm) and draws the reading unless it exceeds 1e9.

The OpenCV calls that produce the contours (colour conversion, bilateral
filter, `findContours`, `contourArea`, `moments`) are foreign code. The
model takes their output as input: for each colour, a list of regions, each
with its truncated area and centroid column.

Modules:

- `Wrappers`: `Option` and `Result`.
- `SparseIntArrays`: `android.util.SparseIntArray`, as parallel key and
  value sequences with strictly ascending keys. `Put` overwrites or inserts
  in sorted position, `Get` defaults to 0, and `KeyAt(i)` is the i-th smallest key.
- `Crop`: the window of line 49 and OpenCV's `submat` bounds check.
- `Colours`: the HSV bound table, `inRange`, and the red two-range mask.
- `BandSlots`: `findLocations`, as a fold over colour-tagged candidates
  into a pair of sparse arrays (colour and area per column).
- `Decoding`: digits, value, saturation, unit and display ceiling.
- `Frames`: one `processFrame` call, plus the fact that well-separated bands
  decode left to right.

The slot merge follows the code, not the comment at lines 120-121, which
says that of a band split into several contours only the largest is kept. A
candidate is rejected only when a stored slot less than 10 columns away has a
strictly larger area; otherwise it is stored at its own column. The deletion
of the smaller nearby slot is commented out (lines 132-136), so a nearby slot
of smaller or equal area stays beside the new one, and only a slot at exactly
the same column is overwritten. A split band can therefore leave more than one
slot. `BandSlots.NearbySmallerCoexists` states the behaviour as written.

## Model

| member | source | states |
|---|---|---|
| Crop.CropWindow | app/src/main/java/com/rishijain/resistorscanner/ResistorImageProcessor.java:49 | the window is exactly 40 rows by 120 columns, centred on (rows/2, cols/2) with integer division |
| Crop.Submat | app/src/main/java/com/rishijain/resistorscanner/ResistorImageProcessor.java:49 | cropping succeeds iff rows/2 >= 20 and cols/2 >= 60; on success the window lies inside the frame, otherwise OpenCV's out-of-bounds error |
| Crop.CropFitsIff | app/src/main/java/com/rishijain/resistorscanner/ResistorImageProcessor.java:49 | the window lies inside the frame iff rows/2 >= 20 and cols/2 >= 60 |
| Crop.CoversCentre | app/src/main/java/com/rishijain/resistorscanner/ResistorImageProcessor.java:49 | a pixel is in the window iff its row is in [rows/2-20, rows/2+20) and its column in [cols/2-60, cols/2+60), half-open |
| Colours.InRange | app/src/main/java/com/rishijain/resistorscanner/ResistorImageProcessor.java:110 | `inRange` on one pixel: a pixel is admitted only by a non-empty box, and both corners of a non-empty box are admitted, so both ends are included |
| Colours.InMask | app/src/main/java/com/rishijain/resistorscanner/ResistorImageProcessor.java:101-110 | colour i's mask is its table row, except red, which is the OR of the two red ranges; every mask lies within hue 0..180 and saturation and value 0..250, and a red pixel has hue at most 8 or at least 158 |
| Colours.BoundsInclusive | app/src/main/java/com/rishijain/resistorscanner/ResistorImageProcessor.java:22-39 | both corners of every colour's range are in its mask and one step above the upper value bound is not: the test is inclusive |
| Colours.RedMaskIff | app/src/main/java/com/rishijain/resistorscanner/ResistorImageProcessor.java:36-39 | a pixel is in the red mask iff it lies inclusively in [0..8, 65..100, 60..100] or in [158..180, 65..250, 50..150] |
| Colours.NeverRedBetween | app/src/main/java/com/rishijain/resistorscanner/ResistorImageProcessor.java:101-108 | a pixel with hue 9..157 is never in the red mask |
| Colours.RedPlaceholderUnused | app/src/main/java/com/rishijain/resistorscanner/ResistorImageProcessor.java:25 | the placeholder red row admits (0,0,0), yet the red mask rejects it: that row is never consulted |
| SparseIntArrays.SparseIntArray.Put | app/src/main/java/com/rishijain/resistorscanner/ResistorImageProcessor.java:142-143 | put keeps the keys strictly ascending, maps the key to the new value, leaves every other key's value unchanged, and adds exactly that key to the key set |
| SparseIntArrays.SparseIntArray.Get | app/src/main/java/com/rishijain/resistorscanner/ResistorImageProcessor.java:127 | get returns the stored value of a present key and 0 for an absent one |
| SparseIntArrays.SparseIntArray.KeyAt | app/src/main/java/com/rishijain/resistorscanner/ResistorImageProcessor.java:61-63 | keyAt(i) is a stored key, larger than every key before index i and smaller than every key after it |
| SparseIntArrays.SparseIntArray.Lookup | app/src/main/java/com/rishijain/resistorscanner/ResistorImageProcessor.java:65 | a key has a value iff it is in the key set |
| SparseIntArrays.PutSize | app/src/main/java/com/rishijain/resistorscanner/ResistorImageProcessor.java:142-143 | put at a present key keeps the size; put at a new key grows it by one |
| SparseIntArrays.SizeIsCard | app/src/main/java/com/rishijain/resistorscanner/ResistorImageProcessor.java:57 | size() equals the number of distinct keys |
| BandSlots.Blocked | app/src/main/java/com/rishijain/resistorscanner/ResistorImageProcessor.java:123-131 | the scan finds a nearby slot of strictly larger area only at a stored key; an empty table blocks nothing |
| BandSlots.Accepted | app/src/main/java/com/rishijain/resistorscanner/ResistorImageProcessor.java:116-140 | a stored candidate has area above 20; into an empty table, exactly the candidates of area above 20 are stored |
| BandSlots.ShouldStoreLocation | app/src/main/java/com/rishijain/resistorscanner/ResistorImageProcessor.java:122-138 | the scan over existing slots, with its early break, ends with shouldStoreLocation true iff no slot less than 10 columns away has a strictly larger area |
| BandSlots.Step | app/src/main/java/com/rishijain/resistorscanner/ResistorImageProcessor.java:116-144 | one contour keeps both arrays well formed on the same key set, with colours in 0..9 and areas above 20. An accepted candidate is written at its column in both arrays and every other entry is unchanged. A rejected one changes nothing |
| BandSlots.AcceptedIff | app/src/main/java/com/rishijain/resistorscanner/ResistorImageProcessor.java:123-131 | a candidate is stored iff its area exceeds 20 and no stored key k with abs(k-cx) < 10 has a strictly larger area |
| BandSlots.AreaFilterBoundary | app/src/main/java/com/rishijain/resistorscanner/ResistorImageProcessor.java:116 | a contour of area 20 is dropped; one of area 21 becomes a slot |
| BandSlots.RejectionBoundary | app/src/main/java/com/rishijain/resistorscanner/ResistorImageProcessor.java:125-127 | a larger slot 9 columns away rejects; one 10 columns away does not, and a nearby slot of equal area does not |
| BandSlots.NearbySmallerCoexists | app/src/main/java/com/rishijain/resistorscanner/ResistorImageProcessor.java:132-143 | an accepted candidate near an existing slot leaves that slot in place unchanged, beside the new slot |
| BandSlots.StepAreaMonotone | app/src/main/java/com/rishijain/resistorscanner/ResistorImageProcessor.java:123-143 | one contour never removes a slot and never lowers a stored area: an overwrite at the same column needs an area at least as large |
| BandSlots.StepCovers | app/src/main/java/com/rishijain/resistorscanner/ResistorImageProcessor.java:116-143 | after its step, a contour of area above 20 is either stored at its column or outweighed by a slot less than 10 columns away with a strictly larger area |
| BandSlots.CoveredStep | app/src/main/java/com/rishijain/resistorscanner/ResistorImageProcessor.java:113-143 | a contour covered by the table stays covered after every later contour |
| BandSlots.Fold | app/src/main/java/com/rishijain/resistorscanner/ResistorImageProcessor.java:113-146 | folding the candidates keeps the table well formed and loses no slot. Each resulting slot is either unchanged or holds exactly some candidate whose area exceeds 20. Conversely every candidate of area above 20 ends covered (stored at its column with at least its area, or outweighed by a nearby slot of strictly larger area), and so does everything covered before |
| BandSlots.ColourCandidates | app/src/main/java/com/rishijain/resistorscanner/ResistorImageProcessor.java:113-119 | one colour's contour list becomes, in order, one candidate per contour with that colour, its centroid column and its area |
| BandSlots.CandidatesFrom | app/src/main/java/com/rishijain/resistorscanner/ResistorImageProcessor.java:95-113 | candidates come colour by colour in ascending colour order, each a region of the colour it carries |
| BandSlots.CandidatesComplete | app/src/main/java/com/rishijain/resistorscanner/ResistorImageProcessor.java:95-113 | every region of every colour becomes a candidate |
| BandSlots.FindLocations | app/src/main/java/com/rishijain/resistorscanner/ResistorImageProcessor.java:90-148 | starting from empty tables, the result is well formed. Every slot records a region of its stored colour: that region's column, its area (above 20) and the colour. Conversely every region of area above 20, of any colour, is stored at its column or outweighed by a nearby slot of strictly larger area |
| Decoding.Pow10 | app/src/main/java/com/rishijain/resistorscanner/ResistorImageProcessor.java:66 | `Math.pow(10, p)` for the power digit: at least 1, and a multiple of 10 from p = 1 on |
| Decoding.NarrowToInt | app/src/main/java/com/rishijain/resistorscanner/ResistorImageProcessor.java:66 | the double-to-int narrowing of the compound assignment: values in the int range are kept, larger ones become 2147483647 and smaller ones -2147483648 |
| Decoding.UnitFor | app/src/main/java/com/rishijain/resistorscanner/ResistorImageProcessor.java:69-74 | Kohm iff 1000 <= value < 1000000, Mohm iff value >= 1000000, ohm iff value < 1000: exactly one applies |
| Decoding.ReadingOf | app/src/main/java/com/rishijain/resistorscanner/ResistorImageProcessor.java:65-66 | the value is min((10*tens+units)*10^power, 2147483647), the Java int cast of the exact product; the unit follows the thresholds and the reading is shown iff value <= 1e9 |
| Decoding.ShownIffExactWithinCeiling | app/src/main/java/com/rishijain/resistorscanner/ResistorImageProcessor.java:66-76 | a reading is shown iff the exact product is at most 1e9, and a shown value is never saturated |
| Decoding.QuantityBounds | app/src/main/java/com/rishijain/resistorscanner/ResistorImageProcessor.java:69-74 | the printed number times the unit's scale is the value; it lies in [1, 1000) for Kohm, is at least 1 for Mohm and at most 1000 when shown |
| Decoding.ReadingExamples | app/src/main/java/com/rishijain/resistorscanner/ResistorImageProcessor.java:65-76 | digits 4,7,3 give 47000 (47 Kohm); 1,0,6 give 10 Mohm; 2,2,0 give 22 ohm; 1,0,8 give 1e9, shown; 1,1,8 give 1.1e9, not shown; 2,2,9 saturate and are not shown |
| Decoding.Decode | app/src/main/java/com/rishijain/resistorscanner/ResistorImageProcessor.java:57-66 | a reading exists iff there are at least three slots. It is the reading of the colours at the three smallest keys, in ascending key order |
| Decoding.DecodeThreeSmallest | app/src/main/java/com/rishijain/resistorscanner/ResistorImageProcessor.java:57-63 | for whichever keys are the three smallest of the key set, the reading uses their colours as tens, units and power |
| Frames.ProcessFrame | app/src/main/java/com/rishijain/resistorscanner/ResistorImageProcessor.java:43-66 | a frame fails iff it is too small for the window. Otherwise it yields the window, a well-formed slot table and a reading, present iff the table has at least three slots. Every slot records a contour of the frame with its stored colour, column and area, and every contour of area above 20 is stored at its column or outweighed by a nearby slot of strictly larger area |
| Frames.SeparatedBandsSlots | app/src/main/java/com/rishijain/resistorscanner/ResistorImageProcessor.java:113-144 | candidates at least 10 columns apart (and from existing slots) with area above 20 each get their own slot holding their colour; existing slots are kept |
| Frames.SeparatedBandsDecode | app/src/main/java/com/rishijain/resistorscanner/ResistorImageProcessor.java:57-66 | three such bands, visited in any order, decode left to right: leftmost tens, middle units, rightmost power |

## Left out

- The OpenCV primitives at lines 51-53, 112, 116 and 118 (`cvtColor`, `bilateralFilter`, `findContours`, `contourArea`, `moments`) are native code. Their output, a list of regions per colour with truncated area and centroid column, is the model's input.
- The link from pixel classification (`Colours.InMask`) to the contour lists is not modelled, because contour extraction is foreign code.
- The floating-point centroid `(int)(m10/m00)` at line 119 is left out. The column is an input.
- Java int overflow in `keyAt(locIdx) - cx` and `Math.abs` at line 125 is not modelled. Centroids lie inside the 120-column window, so the difference cannot overflow.
- The text of the reading (`value / 1e3 + " Kohm"`, built with Java's `Double.toString`, e.g. "47.0 Kohm") is left out. Only the unit and the exact quotient (`Decoding.Quantity`) are modelled.
- Overlay drawing (`putText` at line 77, the border `line` calls at lines 81-85) is presentation. It uses double coordinates (`cols/2.0`), so for an odd frame size the drawn border is half a pixel off the crop window. This is not modelled.
- `MainActivity2.java` (camera lifecycle, OpenCV loading, frame callback), `MainActivity.java` and `MyAdapter.java` (list UI, navigation) are I/O and UI plumbing.
- The source of `android.util.SparseIntArray` is not part of this model. `SparseIntArrays` follows its documented behaviour: ascending keys, overwrite on put, 0 for a missing key. A sorted insertion stands in for its binary search.
- Decoding.ReadingOf: models the int cast only for the integral products that occur with digits 0..9, where every double involved is exact. NaN and fractional doubles do not occur.
