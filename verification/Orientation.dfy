/** Turning a stored image the way its orientation tag says it is to be seen. */
module Orientation {
  import opened Utf8
  import opened PatchPacking

  datatype Point = Point(x: nat, y: nat)

  predicate Within(p: Point, width: nat, height: nat) {
    p.x < width && p.y < height
  }

  // -------------------------------------------------------------------- the orientation tag

  datatype Side = Top | Bottom | Left | Right

  /** The visual side that row 0 lies on (TIFF 6.0, section 8, Orientation). */
  function RowSide(o: int): Side {
    match o
    case 3 => Bottom case 4 => Bottom case 5 => Left case 6 => Right case 7 => Right case 8 => Left
    case _ => Top
  }

  /** The visual side that column 0 lies on. */
  function ColumnSide(o: int): Side {
    match o
    case 2 => Right case 3 => Right case 5 => Top case 6 => Top case 7 => Bottom case 8 => Bottom
    case _ => Left
  }

  /** How far a point is from a side. */
  function Distance(p: Point, side: Side, width: nat, height: nat): int {
    match side
    case Top => p.y
    case Bottom => height - 1 - p.y
    case Left => p.x
    case Right => width - 1 - p.x
  }

  /** Row y and column x of the stored image are seen at this point. */
  predicate SeenAt(o: int, p: Point, x: nat, y: nat, outWidth: nat, outHeight: nat) {
    Distance(p, RowSide(o), outWidth, outHeight) == y && Distance(p, ColumnSide(o), outWidth, outHeight) == x
  }

  // ---------------------------------------------------------------------------- the map

  function OutWidth(o: int, width: nat, height: nat): nat {
    if o >= 5 then height else width
  }

  function OutHeight(o: int, width: nat, height: nat): nat {
    if o >= 5 then width else height
  }

  /** Tags as they are read from a file. */
  predicate Tag(o: int) {
    1 <= o <= 8
  }

  function Moved(o: int, p: Point, width: nat, height: nat): Point
    requires Tag(o) && Within(p, width, height)
  {
    match o
    case 2 => Point(width - 1 - p.x, p.y)
    case 3 => Point(width - 1 - p.x, height - 1 - p.y)
    case 4 => Point(p.x, height - 1 - p.y)
    case 5 => Point(p.y, p.x)
    case 6 => Point(height - 1 - p.y, p.x)
    case 7 => Point(height - 1 - p.y, width - 1 - p.x)
    case 8 => Point(p.y, width - 1 - p.x)
    case _ => p
  }

  /** The map puts each pixel at the one point where the tag says it is seen. */
  lemma MovedIsSeen(o: int, p: Point, q: Point, width: nat, height: nat)
    requires Tag(o) && Within(p, width, height)
    ensures Within(Moved(o, p, width, height), OutWidth(o, width, height), OutHeight(o, width, height))
    ensures Within(q, OutWidth(o, width, height), OutHeight(o, width, height)) ==>
      (SeenAt(o, q, p.x, p.y, OutWidth(o, width, height), OutHeight(o, width, height))
       <==> q == Moved(o, p, width, height))
  {
  }

  /** 2, 3, 4, 5 and 7 undo themselves; 6 and 8 undo each other. */
  function Inverse(o: int): int {
    if o == 6 then 8 else if o == 8 then 6 else o
  }

  function MovedBack(o: int, q: Point, width: nat, height: nat): (p: Point)
    requires Tag(o) && Within(q, OutWidth(o, width, height), OutHeight(o, width, height))
    ensures Within(p, width, height)
  {
    Moved(Inverse(o), q, OutWidth(o, width, height), OutHeight(o, width, height))
  }

  lemma MovedAndBack(o: int, p: Point, width: nat, height: nat)
    requires Tag(o)
    ensures Within(p, width, height) ==>
      var q := Moved(o, p, width, height);
      Within(q, OutWidth(o, width, height), OutHeight(o, width, height)) && MovedBack(o, q, width, height) == p
    ensures Within(p, OutWidth(o, width, height), OutHeight(o, width, height)) ==>
      Moved(o, MovedBack(o, p, width, height), width, height) == p
  {
  }

  // -------------------------------------------------------------------------- the pixels

  /** The bytes of an image, so many for each pixel. */
  predicate Image(pixels: seq<byte>, width: nat, height: nat, channels: nat) {
    channels > 0 && |pixels| == height * width * channels
  }

  function ByteAt(p: Point, channel: nat, width: nat, channels: nat): nat {
    Join(Join(p.y, p.x, width), channel, channels)
  }

  lemma ByteInside(p: Point, channel: nat, width: nat, height: nat, channels: nat)
    requires Within(p, width, height) && channel < channels
    ensures ByteAt(p, channel, width, channels) < height * width * channels
    ensures PointOf(ByteAt(p, channel, width, channels), width, channels) == p
    ensures ByteAt(p, channel, width, channels) % channels == channel
  {
    hide Join;
    Digits(p.y, p.x, width, height);
    Digits(Join(p.y, p.x, width), channel, channels, height * width);
  }

  function Quotient(k: nat, b: nat): nat
    requires b > 0
  {
    k / b
  }

  function Remainder(k: nat, b: nat): nat
    requires b > 0
  {
    k % b
  }

  function PointOf(k: nat, width: nat, channels: nat): Point
    requires width > 0 && channels > 0
  {
    Point(Remainder(Quotient(k, channels), width), Quotient(Quotient(k, channels), width))
  }

  lemma PointInside(k: nat, width: nat, height: nat, channels: nat)
    requires width > 0 && channels > 0 && k < height * width * channels
    ensures Within(PointOf(k, width, channels), width, height)
    ensures ByteAt(PointOf(k, width, channels), k % channels, width, channels) == k
  {
    hide Join;
    Rejoined(k, channels, height * width);
    Rejoined(k / channels, width, height);
  }

  /** A grey image is the same in all three planes; further channels are dropped. */
  function Plane(channel: nat, channels: nat): nat {
    if channels < 3 then 0 else channel
  }

  /** The byte of the turned image at k. */
  function Turned(o: int, pixels: seq<byte>, width: nat, height: nat, channels: nat, k: nat): byte
    requires Tag(o) && Image(pixels, width, height, channels) && k < height * width * 3
  {
    var ow := OutWidth(o, width, height);
    NotEmpty(width, height, k);
    Area3(o, width, height);
    PointInside(k, ow, OutHeight(o, width, height), 3);
    var p := MovedBack(o, PointOf(k, ow, 3), width, height);
    ByteInside(p, Plane(k % 3, channels), width, height, channels);
    pixels[ByteAt(p, Plane(k % 3, channels), width, channels)]
  }

  lemma NotEmpty(width: nat, height: nat, k: nat)
    requires k < height * width * 3
    ensures width > 0 && height > 0
  {
  }

  lemma Area3(o: int, width: nat, height: nat)
    ensures OutHeight(o, width, height) * OutWidth(o, width, height) * 3 == height * width * 3
  {
  }

  function Oriented(o: int, pixels: seq<byte>, width: nat, height: nat, channels: nat): (r: seq<byte>)
    requires Tag(o) && Image(pixels, width, height, channels)
    ensures Image(r, OutWidth(o, width, height), OutHeight(o, width, height), 3)
  {
    Area3(o, width, height);
    seq(height * width * 3, k requires 0 <= k < height * width * 3 => Turned(o, pixels, width, height, channels, k))
  }

  /** Turning an image of three channels and then turning it by the inverse gives it back. */
  lemma TurnedBack(o: int, pixels: seq<byte>, width: nat, height: nat)
    requires Tag(o) && Image(pixels, width, height, 3)
    ensures var ow, oh := OutWidth(o, width, height), OutHeight(o, width, height);
      Oriented(Inverse(o), Oriented(o, pixels, width, height, 3), ow, oh, 3) == pixels
  {
    var ow, oh := OutWidth(o, width, height), OutHeight(o, width, height);
    var turned := Oriented(o, pixels, width, height, 3);
    var back := Oriented(Inverse(o), turned, ow, oh, 3);
    Area3(o, width, height);
    assert |back| == |pixels|;
    forall k | 0 <= k < |pixels| ensures back[k] == pixels[k] {
      TurnedBackAt(o, pixels, width, height, k);
    }
  }

  lemma TurnedBackAt(o: int, pixels: seq<byte>, width: nat, height: nat, k: nat)
    requires Tag(o) && Image(pixels, width, height, 3) && k < |pixels|
    ensures var ow, oh := OutWidth(o, width, height), OutHeight(o, width, height);
      var turned := Oriented(o, pixels, width, height, 3);
      oh * ow * 3 == |pixels| && Turned(Inverse(o), turned, ow, oh, 3, k) == pixels[k]
  {
    hide ByteAt, PointOf;
    var ow, oh := OutWidth(o, width, height), OutHeight(o, width, height);
    Area3(o, width, height);
    NotEmpty(width, height, k);
    var p := PointOf(k, width, 3);
    PointInside(k, width, height, 3);
    var q := Moved(o, p, width, height);
    MovedAndBack(o, p, width, height);
    var j := ByteAt(q, k % 3, ow, 3);
    ByteInside(q, k % 3, ow, oh, 3);
  }

  // -------------------------------------------------------------------------- the loops

  /** The pixels in front of row y, column x, in the order of the loops. */
  predicate Earlier(p: Point, x: nat, y: nat) {
    p.y < y || (p.y == y && p.x < x)
  }

  /** Where the byte of the turned image at k comes from. */
  function Origin(o: int, width: nat, height: nat, k: nat): (p: Point)
    requires Tag(o) && k < height * width * 3
    ensures Within(p, width, height)
  {
    var ow := OutWidth(o, width, height);
    NotEmpty(width, height, k);
    Area3(o, width, height);
    PointInside(k, ow, OutHeight(o, width, height), 3);
    MovedBack(o, PointOf(k, ow, 3), width, height)
  }

  /** All that comes from earlier pixels has been written. */
  ghost predicate Written(rgb: seq<byte>, o: int, pixels: seq<byte>, width: nat, height: nat, channels: nat,
                          x: nat, y: nat)
    requires Tag(o) && Image(pixels, width, height, channels) && |rgb| == height * width * 3
  {
    forall k :: 0 <= k < |rgb| && Earlier(Origin(o, width, height, k), x, y)
      ==> rgb[k] == Turned(o, pixels, width, height, channels, k)
  }

  /** The bytes of a pixel lie together. */
  lemma Together(p: Point, channel: nat, width: nat, channels: nat)
    ensures ByteAt(p, channel, width, channels) == ByteAt(p, 0, width, channels) + channel
  {
  }

  /** What comes from one pixel is in the three bytes of the point it is moved to. */
  lemma OriginIs(o: int, width: nat, height: nat, p: Point, k: nat)
    requires Tag(o) && k < height * width * 3 && Within(p, width, height)
    ensures var dst := ByteAt(Moved(o, p, width, height), 0, OutWidth(o, width, height), 3);
      && (Origin(o, width, height, k) == p <==> dst <= k < dst + 3)
      && (dst <= k < dst + 3 ==> k % 3 == k - dst)
  {
    hide ByteAt, PointOf;
    var ow, oh := OutWidth(o, width, height), OutHeight(o, width, height);
    Area3(o, width, height);
    NotEmpty(width, height, k);
    MovedAndBack(o, p, width, height);
    var q := Moved(o, p, width, height);
    var dst := ByteAt(q, 0, ow, 3);
    if dst <= k < dst + 3 {
      Together(q, k - dst, ow, 3);
      ByteInside(q, k - dst, ow, oh, 3);
    }
    var at := PointOf(k, ow, 3);
    PointInside(k, ow, oh, 3);
    MovedAndBack(o, at, width, height);
    Together(at, k % 3, ow, 3);
  }

  lemma TurnedFrom(o: int, pixels: seq<byte>, width: nat, height: nat, channels: nat, p: Point, k: nat)
    requires Tag(o) && Image(pixels, width, height, channels) && k < height * width * 3 && Within(p, width, height)
    requires Origin(o, width, height, k) == p
    ensures var src := ByteAt(p, Plane(k % 3, channels), width, channels);
      src < |pixels| && Turned(o, pixels, width, height, channels, k) == pixels[src]
  {
    hide ByteAt;
    ByteInside(p, Plane(k % 3, channels), width, height, channels);
  }

  /** The three bytes of a pixel of the turned image are those of the pixel that is moved there, the first
      three, or three times the first where it has fewer. */
  lemma PixelIsMoved(o: int, pixels: seq<byte>, width: nat, height: nat, channels: nat, p: Point, c: nat)
    requires Tag(o) && Image(pixels, width, height, channels) && Within(p, width, height) && c < 3
    ensures var q := Moved(o, p, width, height);
      var k := At(q, c, if o >= 5 then height else width, 3);
      var src := At(p, if channels < 3 then 0 else c, width, channels);
      && k < |Oriented(o, pixels, width, height, channels)| && src < |pixels|
      && Oriented(o, pixels, width, height, channels)[k] == pixels[src]
  {
    hide Turned, Moved;
    var q, ow := Moved(o, p, width, height), OutWidth(o, width, height);
    var k := ByteAt(q, c, ow, 3);
    MovedAndBack(o, p, width, height);
    Area3(o, width, height);
    ByteInside(q, c, ow, OutHeight(o, width, height), 3);
    OriginIs(o, width, height, p, k);
    TurnedFrom(o, pixels, width, height, channels, p, k);
  }

  /** A byte of a pixel, row by row. */
  function At(p: Point, c: nat, width: nat, channels: nat): nat {
    (p.y * width + p.x) * channels + c
  }

  /** The bytes of a pixel as they are copied. */
  predicate Copied(rgb: seq<byte>, dst: nat, pixels: seq<byte>, src: nat, channels: nat)
    requires dst + 3 <= |rgb| && channels > 0 && src + channels <= |pixels|
  {
    forall k :: dst <= k < dst + 3 ==> rgb[k] == pixels[src + Plane(k - dst, channels)]
  }

  lemma WrittenNext(before: seq<byte>, after: seq<byte>, o: int, pixels: seq<byte>,
                    width: nat, height: nat, channels: nat, p: Point, dst: nat, src: nat)
    requires Tag(o) && Image(pixels, width, height, channels) && |before| == height * width * 3 && |after| == |before|
    requires Within(p, width, height) && Written(before, o, pixels, width, height, channels, p.x, p.y)
    requires dst == ByteAt(Moved(o, p, width, height), 0, OutWidth(o, width, height), 3) && dst + 3 <= |after|
    requires src == ByteAt(p, 0, width, channels) && src + channels <= |pixels|
    requires Copied(after, dst, pixels, src, channels)
    requires forall k :: 0 <= k < |after| && !(dst <= k < dst + 3) ==> after[k] == before[k]
    ensures Written(after, o, pixels, width, height, channels, p.x + 1, p.y)
  {
    hide Turned, Moved, Origin, ByteAt;
    forall k | 0 <= k < |after| && Earlier(Origin(o, width, height, k), p.x + 1, p.y)
      ensures after[k] == Turned(o, pixels, width, height, channels, k)
    {
      OriginIs(o, width, height, p, k);
      if Origin(o, width, height, k) == p {
        TurnedFrom(o, pixels, width, height, channels, p, k);
        Together(p, Plane(k % 3, channels), width, channels);
      } else {
        assert Earlier(Origin(o, width, height, k), p.x, p.y);
      }
    }
  }

  method CopyPixel(rgb: array<byte>, dst: nat, pixels: seq<byte>, src: nat, channels: nat)
    requires dst + 3 <= rgb.Length && channels > 0 && src + channels <= |pixels|
    modifies rgb
    ensures Copied(rgb[..], dst, pixels, src, channels)
    ensures forall k :: 0 <= k < rgb.Length && !(dst <= k < dst + 3) ==> rgb[k] == old(rgb[k])
  {
    if channels < 3 {
      rgb[dst], rgb[dst + 1], rgb[dst + 2] := pixels[src], pixels[src], pixels[src];
    } else {
      rgb[dst], rgb[dst + 1], rgb[dst + 2] := pixels[src], pixels[src + 1], pixels[src + 2];
    }
  }

  /** One pixel. */
  method PutPixel(rgb: array<byte>, o: int, pixels: seq<byte>, width: nat, height: nat, channels: nat, x: nat, y: nat)
    requires Tag(o) && Image(pixels, width, height, channels) && rgb.Length == height * width * 3
    requires x < width && y < height && Written(rgb[..], o, pixels, width, height, channels, x, y)
    modifies rgb
    ensures Written(rgb[..], o, pixels, width, height, channels, x + 1, y)
  {
    hide Turned, Moved, Origin, Written, Copied, ByteAt;
    var p := Point(x, y);
    var q := Move(o, p, width, height);
    var src := ByteIndex(p, width, channels);
    var dst := ByteIndex(q, OutWidth(o, width, height), 3);
    SourceInside(p, width, height, channels);
    MovedInside(o, p, width, height);
    ghost var before := rgb[..];
    CopyPixel(rgb, dst, pixels, src, channels);
    WrittenNext(before, rgb[..], o, pixels, width, height, channels, p, dst, src);
  }

  /** The index of a pixel's first byte as the program computes it. */
  method ByteIndex(p: Point, width: nat, channels: nat) returns (k: nat)
    ensures k == ByteAt(p, 0, width, channels)
  {
    k := (p.y * width + p.x) * channels;
  }

  lemma SourceInside(p: Point, width: nat, height: nat, channels: nat)
    requires Within(p, width, height) && channels > 0
    ensures ByteAt(p, 0, width, channels) + channels <= height * width * channels
  {
    hide ByteAt;
    ByteInside(p, channels - 1, width, height, channels);
    Together(p, channels - 1, width, channels);
  }

  lemma MovedInside(o: int, p: Point, width: nat, height: nat)
    requires Tag(o) && Within(p, width, height)
    ensures ByteAt(Moved(o, p, width, height), 0, OutWidth(o, width, height), 3) + 3 <= height * width * 3
  {
    hide ByteAt;
    MovedAndBack(o, p, width, height);
    SourceInside(Moved(o, p, width, height), OutWidth(o, width, height), OutHeight(o, width, height), 3);
    Area3(o, width, height);
  }

  /** The switch of the program. */
  method Move(o: int, p: Point, width: nat, height: nat) returns (q: Point)
    requires Tag(o) && Within(p, width, height)
    ensures q == Moved(o, p, width, height)
  {
    var ox, oy := p.x, p.y;
    if o == 2 { ox := width - 1 - p.x; }
    else if o == 3 { ox := width - 1 - p.x; oy := height - 1 - p.y; }
    else if o == 4 { oy := height - 1 - p.y; }
    else if o == 5 { ox := p.y; oy := p.x; }
    else if o == 6 { ox := height - 1 - p.y; oy := p.x; }
    else if o == 7 { ox := height - 1 - p.y; oy := width - 1 - p.x; }
    else if o == 8 { ox := p.y; oy := width - 1 - p.x; }
    q := Point(ox, oy);
  }

  lemma RowWritten(rgb: seq<byte>, o: int, pixels: seq<byte>, width: nat, height: nat, channels: nat, y: nat)
    requires Tag(o) && Image(pixels, width, height, channels) && |rgb| == height * width * 3
    requires Written(rgb, o, pixels, width, height, channels, width, y)
    ensures Written(rgb, o, pixels, width, height, channels, 0, y + 1)
  {
    hide Turned, Origin;
    forall k | 0 <= k < |rgb| && Earlier(Origin(o, width, height, k), 0, y + 1)
      ensures rgb[k] == Turned(o, pixels, width, height, channels, k)
    {
      assert Earlier(Origin(o, width, height, k), width, y);
    }
  }

  lemma AllWritten(rgb: seq<byte>, o: int, pixels: seq<byte>, width: nat, height: nat, channels: nat)
    requires Tag(o) && Image(pixels, width, height, channels) && |rgb| == height * width * 3
    requires Written(rgb, o, pixels, width, height, channels, 0, height)
    ensures rgb == Oriented(o, pixels, width, height, channels)
  {
    hide Turned, Origin;
    forall k | 0 <= k < |rgb| ensures rgb[k] == Oriented(o, pixels, width, height, channels)[k] {
      assert Earlier(Origin(o, width, height, k), 0, height);
    }
  }

  lemma NoneWritten(rgb: seq<byte>, o: int, pixels: seq<byte>, width: nat, height: nat, channels: nat)
    requires Tag(o) && Image(pixels, width, height, channels) && |rgb| == height * width * 3
    ensures Written(rgb, o, pixels, width, height, channels, 0, 0)
  {
  }

  /** The turned image: every byte of it is written. */
  method Orient(o: int, pixels: seq<byte>, width: nat, height: nat, channels: nat) returns (rgb: array<byte>)
    requires Tag(o) && Image(pixels, width, height, channels)
    ensures fresh(rgb) && rgb[..] == Oriented(o, pixels, width, height, channels)
  {
    hide Written, Oriented;
    rgb := new byte[height * width * 3];
    NoneWritten(rgb[..], o, pixels, width, height, channels);
    for y := 0 to height
      invariant Written(rgb[..], o, pixels, width, height, channels, 0, y)
    {
      for x := 0 to width
        invariant Written(rgb[..], o, pixels, width, height, channels, x, y)
      {
        PutPixel(rgb, o, pixels, width, height, channels, x, y);
      }
      RowWritten(rgb[..], o, pixels, width, height, channels, y);
    }
    AllWritten(rgb[..], o, pixels, width, height, channels);
  }
}
