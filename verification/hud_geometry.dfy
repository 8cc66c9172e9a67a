/** Placement of the HUD panel: which screen it goes on, the pill's frame
    in screen coordinates, the panel frame enlarged for the shadow and
    pushed back inside the screen's top-right corner, and the pill's frame
    relative to the panel's content view. Coordinates are AppKit's (origin
    at the bottom left, y growing upwards); `CGFloat` is modelled as `real`. */
module HUDGeometry {

  datatype Rect = Rect(x: real, y: real, width: real, height: real) {
    function MaxX(): real { x + width }
    function MaxY(): real { y + height }
  }

  /** `.zero`, the frame used when there is no screen at all. */
  const ZeroRect: Rect := Rect(0.0, 0.0, 0.0, 0.0)

  /** `HUDLayout`: the pill's size and its distance from the screen edges. */
  const PillWidth: real := 170.0
  const PillHeight: real := 44.0
  const TopPadding: real := 10.0
  const SidePadding: real := 12.0

  /** Room added around the pill so that its shadow is not clipped. */
  const ShadowExpansion: real := 100.0

  function Min(a: real, b: real): real {
    if a <= b then a else b
  }

  predicate AtOrigin(r: Rect) {
    r.x == 0.0 && r.y == 0.0
  }

  /** The index of the first screen whose frame starts at the origin, or
      `|screens|` when there is none. */
  function FirstAtOrigin(screens: seq<Rect>): (k: nat)
    ensures k <= |screens|
    ensures k < |screens| ==> AtOrigin(screens[k])
    ensures forall j :: 0 <= j < k ==> !AtOrigin(screens[j])
    decreases |screens|
  {
    if |screens| == 0 then 0
    else if AtOrigin(screens[0]) then 0
    else 1 + FirstAtOrigin(screens[1..])
  }

  /** The frame of the primary screen: the first screen at the origin, else
      the first screen, else the zero rectangle. */
  function PrimaryScreen(screens: seq<Rect>): (r: Rect)
    ensures |screens| == 0 ==> r == ZeroRect
    ensures (forall j :: 0 <= j < |screens| ==> !AtOrigin(screens[j])) && |screens| > 0 ==> r == screens[0]
    ensures forall k :: 0 <= k < |screens| && AtOrigin(screens[k]) && (forall j :: 0 <= j < k ==> !AtOrigin(screens[j]))
                        ==> r == screens[k]
  {
    var k := FirstAtOrigin(screens);
    if k < |screens| then screens[k]
    else if |screens| > 0 then screens[0]
    else ZeroRect
  }

  /** The pill, in screen coordinates, at the top-right corner of `screen`. */
  function PillFrame(screen: Rect): (r: Rect)
    ensures r.width == PillWidth && r.height == PillHeight
    ensures r.MaxX() == screen.MaxX() - SidePadding
    ensures r.MaxY() == screen.MaxY() - TopPadding
  {
    Rect(screen.MaxX() - PillWidth - SidePadding, screen.MaxY() - PillHeight - TopPadding, PillWidth, PillHeight)
  }

  /** `frame` grown by `ShadowExpansion`, centred on the same point. */
  function Expand(frame: Rect): (r: Rect)
    ensures r.width == frame.width + ShadowExpansion && r.height == frame.height + ShadowExpansion
    ensures r.x + r.width / 2.0 == frame.x + frame.width / 2.0
    ensures r.y + r.height / 2.0 == frame.y + frame.height / 2.0
    ensures r.x <= frame.x && frame.MaxX() <= r.MaxX()
    ensures r.y <= frame.y && frame.MaxY() <= r.MaxY()
  {
    Rect(frame.x - ShadowExpansion / 2.0, frame.y - ShadowExpansion / 2.0,
         frame.width + ShadowExpansion, frame.height + ShadowExpansion)
  }

  /** Moves `frame` down and left, just enough that it does not stick out
      above or to the right of `screen`. */
  function ClampTopRight(frame: Rect, screen: Rect): (r: Rect)
    ensures r.width == frame.width && r.height == frame.height
    ensures r.MaxY() == Min(frame.MaxY(), screen.MaxY())
    ensures r.MaxX() == Min(frame.MaxX(), screen.MaxX())
    ensures r.MaxY() <= screen.MaxY() && r.MaxX() <= screen.MaxX()
    ensures r.x <= frame.x && r.y <= frame.y
  {
    var y := if frame.MaxY() > screen.MaxY() then frame.y - (frame.MaxY() - screen.MaxY()) else frame.y;
    var x := if frame.MaxX() > screen.MaxX() then frame.x - (frame.MaxX() - screen.MaxX()) else frame.x;
    Rect(x, y, frame.width, frame.height)
  }

  /** The panel frame for `screen`: the enlarged pill frame, kept inside
      the screen's top-right corner, still containing the pill. */
  function WindowFrame(screen: Rect): (r: Rect)
    ensures r.width == PillWidth + ShadowExpansion && r.height == PillHeight + ShadowExpansion
    ensures r.MaxX() <= screen.MaxX() && r.MaxY() <= screen.MaxY()
    ensures r.x <= PillFrame(screen).x && PillFrame(screen).MaxX() <= r.MaxX()
    ensures r.y <= PillFrame(screen).y && PillFrame(screen).MaxY() <= r.MaxY()
  {
    ClampTopRight(Expand(PillFrame(screen)), screen)
  }

  /** The pill's frame inside the panel's content view. */
  function PillContentFrame(screen: Rect): (r: Rect)
    ensures r.width == PillWidth && r.height == PillHeight
    ensures WindowFrame(screen).x + r.x == PillFrame(screen).x
    ensures WindowFrame(screen).y + r.y == PillFrame(screen).y
  {
    var pill := PillFrame(screen);
    var window := WindowFrame(screen);
    Rect(pill.x - window.x, pill.y - window.y, PillWidth, PillHeight)
  }

  /** The enlarged frame always overshoots the top-right corner, so the
      panel ends flush with the screen's top and right edges and keeps its
      enlarged size. */
  lemma WindowHugsTopRight(screen: Rect)
    ensures WindowFrame(screen).MaxX() == screen.MaxX()
    ensures WindowFrame(screen).MaxY() == screen.MaxY()
    ensures WindowFrame(screen).width == PillWidth + ShadowExpansion
    ensures WindowFrame(screen).height == PillHeight + ShadowExpansion
  {
  }

  /** Placing the pill at `PillContentFrame` inside the clamped panel puts it
      back at `PillFrame` on screen, wholly inside the panel, with the top
      and side paddings intact, whatever the screen. */
  lemma PillStaysInPlace(screen: Rect)
    ensures var w := WindowFrame(screen);
            var c := PillContentFrame(screen);
            && w.x + c.x == PillFrame(screen).x
            && w.y + c.y == PillFrame(screen).y
            && 0.0 <= c.x && c.MaxX() <= w.width
            && 0.0 <= c.y && c.MaxY() <= w.height
            && c == Rect(88.0, 90.0, PillWidth, PillHeight)
  {
  }
}
