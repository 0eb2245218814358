/**
 * The coordinates of the overlay drawn for each detected face. Faces are
 * located on a frame shrunk to a quarter of its size, so their boxes are
 * scaled back up before drawing. The pixel drawing itself is not modelled.
 */
module Display {

  /** Inverse of the 0.25 resize factor applied before detection. */
  const Upscale: int := 4
  /** Height of the filled label band at the foot of the box. */
  const BandHeight: int := 35
  /** Offset of the label's text origin from the band's left and bottom edges. */
  const TextInset: int := 6

  /** A face location as the detector reports it: (top, right, bottom, left). */
  datatype Location = Location(top: int, right: int, bottom: int, left: int)

  /** A pixel position (x, y). */
  datatype Point = Point(x: int, y: int)

  /** A rectangle given by two opposite corners, as the drawing call takes it. */
  datatype Rect = Rect(corner1: Point, corner2: Point)

  /** What is drawn for one face: its outline, the filled band, and the label text at its origin. */
  datatype Overlay = Overlay(outline: Rect, band: Rect, textOrigin: Point, text: string)

  /** The location on the full-size frame of a location found on the quarter-size frame. */
  function ScaleUp(l: Location): (s: Location)
    ensures s.top % Upscale == 0 && s.right % Upscale == 0
    ensures s.bottom % Upscale == 0 && s.left % Upscale == 0
    ensures s.top / Upscale == l.top && s.right / Upscale == l.right
    ensures s.bottom / Upscale == l.bottom && s.left / Upscale == l.left
  {
    Location(l.top * Upscale, l.right * Upscale, l.bottom * Upscale, l.left * Upscale)
  }

  /** The overlay for a face found at `l` on the quarter-size frame, labelled `name`. */
  function Draw(l: Location, name: string): (o: Overlay)
    ensures o.outline == Rect(Point(4 * l.left, 4 * l.top), Point(4 * l.right, 4 * l.bottom))
    ensures o.band.corner2 == o.outline.corner2
    ensures o.band.corner1 == Point(o.outline.corner1.x, o.outline.corner2.y - BandHeight)
    ensures o.textOrigin == Point(o.outline.corner1.x + TextInset, o.outline.corner2.y - TextInset)
    ensures o.text == name
  {
    var s := ScaleUp(l);
    Overlay(
      Rect(Point(s.left, s.top), Point(s.right, s.bottom)),
      Rect(Point(s.left, s.bottom - BandHeight), Point(s.right, s.bottom)),
      Point(s.left + TextInset, s.bottom - TextInset),
      name)
  }

  /** Locations and labels paired off in order, as `zip` pairs them: the shorter list decides. */
  function Overlays(locations: seq<Location>, names: seq<string>): (os: seq<Overlay>)
    ensures |os| == if |locations| <= |names| then |locations| else |names|
    ensures forall i | 0 <= i < |os| :: os[i] == Draw(locations[i], names[i])
    decreases |locations|
  {
    if |locations| == 0 || |names| == 0 then []
    else [Draw(locations[0], names[0])] + Overlays(locations[1..], names[1..])
  }

  /**
   * The label band lies inside the scaled box exactly when the box found on
   * the quarter-size frame is at least 9 pixels tall; a smaller face gets a
   * band reaching above its box.
   */
  lemma BandInsideOutline(l: Location, name: string)
    ensures var o := Draw(l, name);
      o.outline.corner1.y <= o.band.corner1.y <==> l.bottom - l.top >= 9
  {
  }

  /**
   * The text origin lies strictly inside the band vertically, and inside the
   * box horizontally exactly when the quarter-size box is at least 2 pixels wide.
   */
  lemma TextInsideBand(l: Location, name: string)
    ensures var o := Draw(l, name);
      o.band.corner1.y < o.textOrigin.y < o.band.corner2.y
    ensures var o := Draw(l, name);
      o.textOrigin.x < o.outline.corner2.x <==> l.right - l.left >= 2
  {
  }
}
