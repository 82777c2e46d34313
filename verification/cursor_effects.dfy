/** The decorative cursor: it follows the mouse, changes its look when the
    pointer enters an element marked for a custom cursor, and mounts a trail
    ring while hovering. Every listener is a pure transition on the state
    (position, hovering flag, variant). */
module CursorEffects {
  import opened Optional

  datatype Variant = Default | Luxury | Text | Pointer

  /** A viewport position in CSS pixels (DOM coordinates are doubles). */
  datatype Point = Point(x: real, y: real)

  datatype CursorState = CursorState(position: Point, hovering: bool, variant: Variant)

  /** The element a `mouseenter` event reaches: its class list and its
      upper-case tag name. */
  datatype Target = Target(classList: set<string>, tagName: string)

  datatype Event =
    | MouseMove(clientX: real, clientY: real)
    | MouseEnter(target: Target)
    | MouseLeave

  /** The state is consistent when the cursor hovers exactly when it shows a
      non-default variant. */
  predicate Consistent(s: CursorState)
  {
    s.hovering <==> s.variant != Default
  }

  /** State when the effect mounts: top-left corner, idle. */
  function Init(): (s: CursorState)
    ensures Consistent(s) && !s.hovering
    ensures s.position == Point(0.0, 0.0) && s.variant == Default
  {
    CursorState(Point(0.0, 0.0), false, Default)
  }

  /** The class markers and tags that ask for a custom cursor. */
  const LuxuryClass: string := "cursor-luxury"
  const TextClass: string := "cursor-text"

  predicate IsLink(t: Target)
  {
    t.tagName == "A" || t.tagName == "BUTTON"
  }

  /** Which variant an entered element asks for, if any; `None` when it has
      neither marker class and is not a link or button. The default variant
      is never chosen by entering an element. */
  function Classify(t: Target): (v: Option<Variant>)
    ensures v != Some(Default)
    ensures v == None <==> LuxuryClass !in t.classList && TextClass !in t.classList && !IsLink(t)
  {
    if LuxuryClass in t.classList then Some(Luxury)
    else if TextClass in t.classList then Some(Text)
    else if IsLink(t) then Some(Pointer)
    else None
  }

  /** The rules in priority order: luxury marker, then text marker, then
      links and buttons. A higher rule wins whatever the lower ones say. */
  lemma ClassifyPriority(t: Target)
    ensures Classify(t) == Some(Luxury) <==> LuxuryClass in t.classList
    ensures Classify(t) == Some(Text) <==> LuxuryClass !in t.classList && TextClass in t.classList
    ensures Classify(t) == Some(Pointer) <==> LuxuryClass !in t.classList && TextClass !in t.classList && IsLink(t)
  {
  }

  /** `mousemove`: the cursor follows the pointer and nothing else changes. */
  function MoveTo(s: CursorState, clientX: real, clientY: real): (r: CursorState)
    ensures r.position == Point(clientX, clientY)
    ensures r.hovering == s.hovering && r.variant == s.variant
  {
    s.(position := Point(clientX, clientY))
  }

  /** `mouseenter`: a classified element turns hovering on with its variant;
      any other element leaves the state as it was. */
  function Enter(s: CursorState, t: Target): (r: CursorState)
    ensures r.position == s.position
    ensures Classify(t) == None ==> r == s
    ensures Classify(t) != None ==> r.hovering && r.variant == Classify(t).value
  {
    if LuxuryClass in t.classList then s.(hovering := true, variant := Luxury)
    else if TextClass in t.classList then s.(hovering := true, variant := Text)
    else if IsLink(t) then s.(hovering := true, variant := Pointer)
    else s
  }

  /** `mouseleave`: back to idle from any state, position kept. */
  function Leave(s: CursorState): (r: CursorState)
    ensures !r.hovering && r.variant == Default && r.position == s.position
    ensures Consistent(r)
  {
    s.(hovering := false, variant := Default)
  }

  /** One event; each keeps the state consistent. */
  function Step(s: CursorState, e: Event): (r: CursorState)
    ensures Consistent(s) ==> Consistent(r)
  {
    match e
    case MouseMove(x, y) => MoveTo(s, x, y)
    case MouseEnter(t) => Enter(s, t)
    case MouseLeave => Leave(s)
  }

  /** Deliver the events in order; consistency holds throughout. */
  function Run(s: CursorState, es: seq<Event>): (r: CursorState)
    ensures Consistent(s) ==> Consistent(r)
    decreases |es|
  {
    if es == [] then s
    else
      Run(Step(s, es[0]), es[1..])
  }

  /** The pointer position reported by the last `mousemove` among `es`. */
  function LastMove(es: seq<Event>): Option<Point>
    decreases |es|
  {
    if es == [] then None
    else if LastMove(es[1..]).Some? then LastMove(es[1..])
    else if es[0].MouseMove? then Some(Point(es[0].clientX, es[0].clientY))
    else None
  }

  /** The variant set by the last `mouseenter` that classified its element,
      or by the last `mouseleave`, whichever came later; `None` when no
      event among `es` touched the hover state. */
  function LastHover(es: seq<Event>): Option<Variant>
    decreases |es|
  {
    if es == [] then None
    else if LastHover(es[1..]).Some? then LastHover(es[1..])
    else match es[0]
      case MouseLeave => Some(Default)
      case MouseEnter(t) => Classify(t)
      case MouseMove(_, _) => None
  }

  /** After any events the cursor sits where the last `mousemove` put it,
      or where it started if there was none. */
  lemma {:induction false} RunPosition(s: CursorState, es: seq<Event>)
    ensures Run(s, es).position == (if LastMove(es).Some? then LastMove(es).value else s.position)
    decreases |es|
  {
    if es != [] {
      RunPosition(Step(s, es[0]), es[1..]);
    }
  }

  /** After any events from a consistent state the variant is the one the
      last effective enter or leave chose, and hovering agrees with it;
      movement and unmarked elements do not matter. */
  lemma {:induction false} RunHover(s: CursorState, es: seq<Event>)
    requires Consistent(s)
    ensures Run(s, es).variant == (if LastHover(es).Some? then LastHover(es).value else s.variant)
    ensures Run(s, es).hovering <==> Run(s, es).variant != Default
    decreases |es|
  {
    if es != [] {
      RunHover(Step(s, es[0]), es[1..]);
    }
  }

  /** Entering the same element twice is the same as entering it once, and
      leaving twice the same as leaving once. */
  lemma EnterLeaveIdempotent(s: CursorState, t: Target)
    ensures Enter(Enter(s, t), t) == Enter(s, t)
    ensures Leave(Leave(s)) == Leave(s)
  {
  }

  /** Side lengths, in pixels, of the cursor dot (`w-8 h-8`) and of the
      trail ring (`w-12 h-12`). */
  const DotSize: real := 32.0
  const TrailSize: real := 48.0

  /** How far up and left of the pointer each variant sets the target of the
      cursor dot. Only the default variant puts the dot's centre on the
      pointer. */
  function Offset(v: Variant): (d: Point)
    ensures v == Default <==> d == Point(DotSize / 2.0, DotSize / 2.0)
    ensures v == Default ==> d == Point(16.0, 16.0)
    ensures v == Luxury ==> d == Point(24.0, 24.0)
    ensures v == Text ==> d == Point(12.0, 24.0)
    ensures v == Pointer ==> d == Point(20.0, 20.0)
  {
    match v
    case Default => Point(16.0, 16.0)
    case Luxury => Point(24.0, 24.0)
    case Text => Point(12.0, 24.0)
    case Pointer => Point(20.0, 20.0)
  }

  /** The target of the cursor dot's animation: the pointer position
      shifted by the current variant's offset. */
  function CursorTopLeft(s: CursorState): (p: Point)
    ensures p.x == s.position.x - Offset(s.variant).x
    ensures p.y == s.position.y - Offset(s.variant).y
  {
    var d := Offset(s.variant);
    Point(s.position.x - d.x, s.position.y - d.y)
  }

  /** The dot's target moves rigidly with the pointer: a move by (dx, dy)
      shifts it by exactly (dx, dy), in every variant. */
  lemma CursorFollowsPointer(s: CursorState, dx: real, dy: real)
    ensures var p := CursorTopLeft(MoveTo(s, s.position.x + dx, s.position.y + dy));
            p == Point(CursorTopLeft(s).x + dx, CursorTopLeft(s).y + dy)
  {
  }

  /** The trail ring: mounted only while hovering, with its target 24 pixels
      up and left of the pointer whatever the variant. */
  function Trail(s: CursorState): (r: Option<Point>)
    ensures r.Some? <==> s.hovering
    ensures r.Some? ==> r.value == Point(s.position.x - 24.0, s.position.y - 24.0)
  {
    if s.hovering then Some(Point(s.position.x - 24.0, s.position.y - 24.0)) else None
  }

  /** In a consistent state the trail is mounted exactly for a non-default
      variant, and a `mouseleave` always unmounts it. */
  lemma TrailMatchesVariant(s: CursorState)
    requires Consistent(s)
    ensures Trail(s).Some? <==> s.variant != Default
    ensures Trail(Leave(s)) == None
  {
  }

  /** The idle dot's target centres it on the pointer and no other variant's
      does; while hovering, the trail's target centres the ring on the
      pointer. */
  lemma CentredOnPointer(s: CursorState)
    ensures var p := CursorTopLeft(s);
            s.variant == Default <==>
              Point(p.x + DotSize / 2.0, p.y + DotSize / 2.0) == s.position
    ensures s.hovering ==>
              Point(Trail(s).value.x + TrailSize / 2.0, Trail(s).value.y + TrailSize / 2.0) == s.position
  {
  }
}
