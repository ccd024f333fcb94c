/** The order in which a resized image is cut into patches for the vision model: 2 by 2 groups of
    16 by 16 patches, each plane by plane. Sizes are in groups, that is in units of 32 pixels. */
module PatchPacking {

  const PATCH_VALUES: nat := 768

  /** One value: which group, which patch of it, which plane, and where in the patch. */
  datatype Place = Place(gy: nat, gx: nat, my: nat, mx: nat, c: nat, y: nat, x: nat)

  predicate Inside(p: Place, w: nat, h: nat) {
    p.gy < h && p.gx < w && p.my < 2 && p.mx < 2 && p.c < 3 && p.y < 16 && p.x < 16
  }

  /** A number of two digits, the last in base b. */
  function Join(q: nat, r: nat, b: nat): nat {
    q * b + r
  }

  /** The number of the patch that a place is in. */
  function PatchOf(p: Place, w: nat): nat {
    Join(Join(Join(p.gy, p.gx, w), p.my, 2), p.mx, 2)
  }

  /** Where a value is in the patches ... */
  function Rank(p: Place, w: nat): nat {
    Join(Join(Join(PatchOf(p, w), p.c, 3), p.y, 16), p.x, 16)
  }

  function Row(p: Place): nat {
    Join(Join(p.gy, p.my, 2), p.y, 16)
  }

  function Column(p: Place): nat {
    Join(Join(p.gx, p.mx, 2), p.x, 16)
  }

  /** ... and where in the canvas, whose rows hold three values for each pixel. */
  function Spot(p: Place, w: nat): nat {
    Join(Join(Row(p), Column(p), w * 32), p.c, 3)
  }

  function Values(w: nat, h: nat): nat {
    h * w * 4 * PATCH_VALUES
  }

  function Unrank(k: nat, w: nat): Place
    requires w > 0
  {
    var patch := k / 16 / 16 / 3;
    var group := patch / 2 / 2;
    Place(group / w, group % w, patch / 2 % 2, patch % 2, k / 16 / 16 % 3, k / 16 % 16, k % 16)
  }

  function Unspot(j: nat, w: nat): Place
    requires w > 0
  {
    var row, col := j / 3 / (w * 32), j / 3 % (w * 32);
    Place(row / 16 / 2, col / 16 / 2, row / 16 % 2, col / 16 % 2, j % 3, row % 16, col % 16)
  }

  // -------------------------------------------------------------------- number systems

  /** A number of two digits gives them back, and stays below what its first digit does. */
  lemma Digits(q: nat, r: nat, b: nat, n: nat)
    requires r < b && q < n
    ensures Join(q, r, b) / b == q && Join(q, r, b) % b == r && Join(q, r, b) < n * b
  {
    var m := q * b + r;
    var d := m / b - q;
    assert m == m / b * b + m % b;
    assert d * b == r - m % b;
    NoMultiple(d, b);
    Grows(q + 1, n, b);
    assert (q + 1) * b == q * b + b;
  }

  lemma NoMultiple(d: int, b: nat)
    ensures 0 < d * b + b && d * b < b ==> d == 0
  {
    var e := 0 - d;
    assert e * b == 0 - d * b;
    if d > 0 { Grows(1, d, b); }
    if d < 0 { Grows(1, e, b); }
  }

  lemma Grows(a: nat, c: nat, b: nat)
    requires a <= c
    ensures a * b <= c * b
  {
  }

  /** A number is the join of its digits. */
  lemma Rejoined(k: nat, b: nat, n: nat)
    requires b > 0 && k < n * b
    ensures Join(k / b, k % b, b) == k && k / b < n && k % b < b
  {
    if k / b >= n { Grows(n, k / b, b); }
  }

  // ------------------------------------------------------------------------- one order

  lemma RankInside(p: Place, w: nat, h: nat)
    requires Inside(p, w, h)
    ensures Rank(p, w) < Values(w, h) && Unrank(Rank(p, w), w) == p
  {
    hide Join;
    var k0 := Join(p.gy, p.gx, w);
    Digits(p.gy, p.gx, w, h);
    var k1 := Join(k0, p.my, 2);
    Digits(k0, p.my, 2, h * w);
    var k2 := Join(k1, p.mx, 2);
    Digits(k1, p.mx, 2, h * w * 2);
    var k3 := Join(k2, p.c, 3);
    Digits(k2, p.c, 3, h * w * 4);
    var k4 := Join(k3, p.y, 16);
    Digits(k3, p.y, 16, h * w * 12);
    Digits(k4, p.x, 16, h * w * 192);
  }

  lemma UnrankInside(k: nat, w: nat, h: nat)
    requires w > 0 && k < Values(w, h)
    ensures Inside(Unrank(k, w), w, h) && Rank(Unrank(k, w), w) == k
  {
    hide Join;
    var k1 := k / 16;
    Rejoined(k, 16, h * w * 192);
    var k2 := k1 / 16;
    Rejoined(k1, 16, h * w * 12);
    var k3 := k2 / 3;
    Rejoined(k2, 3, h * w * 4);
    var k4 := k3 / 2;
    Rejoined(k3, 2, h * w * 2);
    var k5 := k4 / 2;
    Rejoined(k4, 2, h * w);
    Rejoined(k5, w, h);
  }

  // --------------------------------------------------------------------- and the other

  lemma SpotInside(p: Place, w: nat, h: nat)
    requires Inside(p, w, h)
    ensures Spot(p, w) < Values(w, h) && Unspot(Spot(p, w), w) == p
  {
    hide Join;
    Digits(p.gy, p.my, 2, h);
    Digits(Join(p.gy, p.my, 2), p.y, 16, h * 2);
    Digits(p.gx, p.mx, 2, w);
    Digits(Join(p.gx, p.mx, 2), p.x, 16, w * 2);
    Digits(Row(p), Column(p), w * 32, h * 32);
    Area(w, h);
    Digits(Join(Row(p), Column(p), w * 32), p.c, 3, (h * 32) * (w * 32));
  }

  lemma Area(w: nat, h: nat)
    ensures (h * 32) * (w * 32) * 3 == Values(w, h)
  {
    assert (h * 32) * (w * 32) == h * w * 1024;
  }

  lemma UnspotInside(j: nat, w: nat, h: nat)
    requires w > 0 && j < Values(w, h)
    ensures Inside(Unspot(j, w), w, h) && Spot(Unspot(j, w), w) == j
  {
    hide Join;
    Area(w, h);
    Rejoined(j, 3, (h * 32) * (w * 32));
    Rejoined(j / 3, w * 32, h * 32);
    var row, col := j / 3 / (w * 32), j / 3 % (w * 32);
    Rejoined(row, 16, h * 2);
    Rejoined(row / 16, 2, h);
    Rejoined(col, 16, w * 2);
    Rejoined(col / 16, 2, w);
  }

  // --------------------------------------------------------------------- the packing

  /** The value of the canvas that is packed at k. */
  function Source(k: nat, w: nat): nat
    requires w > 0
  {
    Spot(Unrank(k, w), w)
  }

  /** Where a value of the canvas is packed. */
  function Target(j: nat, w: nat): nat
    requires w > 0
  {
    Rank(Unspot(j, w), w)
  }

  /** Packing is a rearrangement: every value of the canvas is packed once, and where is known. */
  lemma PackingRearranges(k: nat, w: nat, h: nat)
    requires w > 0 && k < Values(w, h)
    ensures Source(k, w) < Values(w, h) && Target(Source(k, w), w) == k
    ensures Target(k, w) < Values(w, h) && Source(Target(k, w), w) == k
  {
    hide Rank, Spot, Unrank, Unspot, Values;
    UnrankInside(k, w, h);
    SpotInside(Unrank(k, w), w, h);
    UnspotInside(k, w, h);
    RankInside(Unspot(k, w), w, h);
  }

  /** Where the values of a pixel go: groups of 32 by 32 pixels row by row, in each its four patches row
      by row, in each its three planes, and these row by row. */
  lemma PixelIsPacked(px: nat, py: nat, c: nat, w: nat, h: nat)
    requires px < w * 32 && py < h * 32 && c < 3
    ensures w > 0 && InCanvas(px, py, c, w) < Values(w, h)
    ensures Target(InCanvas(px, py, c, w), w) == InPatches(px, py, c, w)
    ensures Source(InPatches(px, py, c, w), w) == InCanvas(px, py, c, w)
  {
    hide Rank, Unrank, Unspot, Values, Spot, PatchOf, InCanvas, InPatches;
    var p := Place(py / 32, px / 32, py / 16 % 2, px / 16 % 2, c, py % 16, px % 16);
    GroupOf(px, w);
    GroupOf(py, h);
    SpotInside(p, w, h);
    RankInside(p, w, h);
    PixelSpot(px, py, c, w);
    PixelRank(px, py, c, w);
  }

  /** Where the values of a pixel are in the canvas. */
  function InCanvas(px: nat, py: nat, c: nat, w: nat): nat {
    (py * (w * 32) + px) * 3 + c
  }

  /** And in the patches. */
  function InPatches(px: nat, py: nat, c: nat, w: nat): nat {
    ((py / 32 * w + px / 32) * 4 + py / 16 % 2 * 2 + px / 16 % 2) * 768 + c * 256 + py % 16 * 16 + px % 16
  }

  lemma GroupOf(p: nat, n: nat)
    requires p < n * 32
    ensures p / 32 < n
  {
  }

  lemma PixelSpot(px: nat, py: nat, c: nat, w: nat)
    ensures Spot(Place(py / 32, px / 32, py / 16 % 2, px / 16 % 2, c, py % 16, px % 16), w) == InCanvas(px, py, c, w)
  {
    DigitsOf(py);
    DigitsOf(px);
    hide Row, Column;
    var p := Place(py / 32, px / 32, py / 16 % 2, px / 16 % 2, c, py % 16, px % 16);
    RowIs(p, py);
    ColumnIs(p, px);
  }

  lemma DigitsOf(p: nat)
    ensures Join(Join(p / 32, p / 16 % 2, 2), p % 16, 16) == p
  {
  }

  lemma RowIs(p: Place, py: nat)
    requires Join(Join(p.gy, p.my, 2), p.y, 16) == py
    ensures Row(p) == py
  {
  }

  lemma ColumnIs(p: Place, px: nat)
    requires Join(Join(p.gx, p.mx, 2), p.x, 16) == px
    ensures Column(p) == px
  {
  }

  lemma PixelRank(px: nat, py: nat, c: nat, w: nat)
    ensures Rank(Place(py / 32, px / 32, py / 16 % 2, px / 16 % 2, c, py % 16, px % 16), w) == InPatches(px, py, c, w)
  {
    var p := Place(py / 32, px / 32, py / 16 % 2, px / 16 % 2, c, py % 16, px % 16);
    PatchSplits(PatchOf(p, w), p);
    Numbers(p.gy, p.gx, p.my, p.mx, w);
    SamePatch(p, w);
  }

  /** The first n values have been packed. */
  ghost predicate Packed(patches: array<real>, canvas: seq<real>, w: nat, h: nat, n: nat)
    requires w > 0 && patches.Length == Values(w, h) == |canvas| && n <= Values(w, h)
    reads patches
  {
    forall k :: 0 <= k < n ==> Source(k, w) < |canvas| && patches[k] == canvas[Source(k, w)]
  }

  /** The values of one place, by number. */
  lemma PlaceOf(p: Place, w: nat, h: nat)
    requires Inside(p, w, h)
    ensures Rank(p, w) == PatchOf(p, w) * 768 + p.c * 256 + p.y * 16 + p.x
    ensures Rank(p, w) < Values(w, h) && Source(Rank(p, w), w) == Spot(p, w) < Values(w, h)
  {
    RankInside(p, w, h);
    SpotInside(p, w, h);
    PatchSplits(PatchOf(p, w), p);
  }

  lemma PatchSplits(patch: nat, p: Place)
    ensures Join(Join(Join(patch, p.c, 3), p.y, 16), p.x, 16) == patch * 768 + p.c * 256 + p.y * 16 + p.x
  {
  }

  /** The index into the canvas as the program computes it. */
  function CanvasIndex(py: nat, px: nat, c: nat, y: nat, x: nat, width: nat): nat {
    ((py * 16 + y) * width + px * 16 + x) * 3 + c
  }

  lemma CanvasIndexIsSpot(p: Place, w: nat)
    ensures CanvasIndex(p.gy * 2 + p.my, p.gx * 2 + p.mx, p.c, p.y, p.x, w * 32) == Spot(p, w)
  {
  }

  /** One patch, from index on. */
  method PackPatch(patches: array<real>, canvas: seq<real>, w: nat, h: nat,
                   gy: nat, gx: nat, my: nat, mx: nat, start: nat)
    returns (index: nat)
    requires gy < h && gx < w && my < 2 && mx < 2 && patches.Length == Values(w, h) == |canvas|
    requires start == PatchOf(Place(gy, gx, my, mx, 0, 0, 0), w) * 768 <= Values(w, h)
    requires Packed(patches, canvas, w, h, start)
    modifies patches
    ensures index == start + 768 <= Values(w, h) && Packed(patches, canvas, w, h, index)
  {
    hide Rank, Spot, Source, Values, PatchOf, CanvasIndex;
    var py, px := gy * 2 + my, gx * 2 + mx;
    ghost var patch := PatchOf(Place(gy, gx, my, mx, 0, 0, 0), w);
    index := start;
    PatchFits(gy, gx, my, mx, w, h);
    for c := 0 to 3
      invariant index == start + c * 256 && Packed(patches, canvas, w, h, index)
    {
      for y := 0 to 16
        invariant index == start + c * 256 + y * 16 && Packed(patches, canvas, w, h, index)
      {
        for x := 0 to 16
          invariant index == start + c * 256 + y * 16 + x && Packed(patches, canvas, w, h, index)
        {
          ghost var p := Place(gy, gx, my, mx, c, y, x);
          SamePatch(p, w);
          PlaceOf(p, w, h);
          CanvasIndexIsSpot(p, w);
          patches[index] := canvas[CanvasIndex(py, px, c, y, x, w * 32)];
          index := index + 1;
        }
      }
    }
  }

  lemma SamePatch(p: Place, w: nat)
    ensures PatchOf(p, w) == PatchOf(Place(p.gy, p.gx, p.my, p.mx, 0, 0, 0), w)
  {
  }

  lemma PatchFits(gy: nat, gx: nat, my: nat, mx: nat, w: nat, h: nat)
    requires gy < h && gx < w && my < 2 && mx < 2
    ensures PatchOf(Place(gy, gx, my, mx, 0, 0, 0), w) * 768 + 768 <= Values(w, h)
  {
    hide Rank;
    PlaceOf(Place(gy, gx, my, mx, 2, 15, 15), w, h);
  }

  /** The number of a group and of its patches. */
  lemma Numbers(gy: nat, gx: nat, my: nat, mx: nat, w: nat)
    ensures PatchOf(Place(gy, gx, my, mx, 0, 0, 0), w) == (gy * w + gx) * 4 + my * 2 + mx
  {
  }

  /** All patches: each place of the patches gets its value, and nothing is left over. */
  method Pack(patches: array<real>, canvas: seq<real>, w: nat, h: nat) returns (index: nat)
    requires w > 0 && patches.Length == Values(w, h) == |canvas|
    modifies patches
    ensures index == w * 2 * (h * 2) * PATCH_VALUES == Values(w, h)
    ensures forall k :: 0 <= k < Values(w, h) ==> Source(k, w) < |canvas| && patches[k] == canvas[Source(k, w)]
  {
    hide Source, Values, PatchOf;
    index := 0;
    for gy := 0 to h
      invariant index == gy * w * 3072 <= Values(w, h) && Packed(patches, canvas, w, h, index)
    {
      for gx := 0 to w
        invariant index == (gy * w + gx) * 3072 <= Values(w, h) && Packed(patches, canvas, w, h, index)
      {
        for my := 0 to 2
          invariant index == (gy * w + gx) * 3072 + my * 1536 <= Values(w, h) && Packed(patches, canvas, w, h, index)
        {
          for mx := 0 to 2
            invariant index == (gy * w + gx) * 3072 + my * 1536 + mx * 768 <= Values(w, h)
            invariant Packed(patches, canvas, w, h, index)
          {
            Numbers(gy, gx, my, mx, w);
            index := PackPatch(patches, canvas, w, h, gy, gx, my, mx, index);
          }
        }
      }
      assert (gy + 1) * w == gy * w + w;
    }
    AllPacked(w, h);
  }

  lemma AllPacked(w: nat, h: nat)
    ensures h * w * 3072 == w * 2 * (h * 2) * PATCH_VALUES == Values(w, h)
  {
    assert w * 2 * (h * 2) == h * w * 4;
  }
}
