/**
 * `Camera` (Source/View/Viewport/camera.cpp): where the viewer stands, how far it is tilted
 * up or down, how wide it sees, and the viewport it draws into.  The setters update fields in
 * place, so the camera is a class.  Positions are `Point`s of reals; widget and viewport
 * coordinates are integers.
 */
module Cameras {
  import opened Blocks

  /** A `QPoint`: integer widget or viewport coordinates. */
  datatype ScreenPoint = ScreenPoint(x: int, y: int)

  /** A `QRect`: the viewport's corner and extent. */
  datatype Rect = Rect(x: int, y: int, width: int, height: int)

  /** The pitch never looks further than straight up or straight down. */
  const MaxVertical: real := 90.0

  const MinFieldOfView: int := 5
  const MaxFieldOfView: int := 85
  const DefaultFieldOfView: int := 45
  /** The step of `IncreaseFieldOfView` and `DecreaseFieldOfView`. */
  const FieldOfViewStep: int := 5

  /** The distance between two values. */
  function Gap(a: real, b: real): real
  {
    if a >= b then a - b else b - a
  }

  function AngleGap(a: int, b: int): nat
  {
    if a >= b then a - b else b - a
  }

  /**
   * The pitch clamp of `NormalizeAngles`: the result lies in [-90, 90] and is the point of that
   * range nearest to the requested pitch.
   */
  function ClampedPitch(pitch: real): (r: real)
    ensures -MaxVertical <= r <= MaxVertical
    ensures forall v: real :: -MaxVertical <= v <= MaxVertical ==> Gap(r, pitch) <= Gap(v, pitch)
  {
    if pitch > MaxVertical then MaxVertical
    else if pitch < -MaxVertical then -MaxVertical
    else pitch
  }

  /**
   * The clamp of `SetFieldOfView`: the result lies in [5, 85] and is the angle of that range
   * nearest to the requested one.
   */
  function ClampedFieldOfView(angle: int): (r: int)
    ensures MinFieldOfView <= r <= MaxFieldOfView
    ensures forall v: int :: MinFieldOfView <= v <= MaxFieldOfView ==> AngleGap(r, angle) <= AngleGap(v, angle)
  {
    if angle > MaxFieldOfView then MaxFieldOfView
    else if angle < MinFieldOfView then MinFieldOfView
    else angle
  }

  /** A value already in range is left alone, so clamping twice is clamping once. */
  lemma ClampsAreIdempotent(pitch: real, angle: int)
    ensures -MaxVertical <= pitch <= MaxVertical ==> ClampedPitch(pitch) == pitch
    ensures ClampedPitch(ClampedPitch(pitch)) == ClampedPitch(pitch)
    ensures MinFieldOfView <= angle <= MaxFieldOfView ==> ClampedFieldOfView(angle) == angle
    ensures ClampedFieldOfView(ClampedFieldOfView(angle)) == ClampedFieldOfView(angle)
  {
  }

  /**
   * `MapToOpenGLViewport` against a viewport: the widget's y axis points down and OpenGL's up,
   * so x is kept and y is reflected about the line half-way between the viewport's top
   * offset and its height: the two y coordinates add up to `viewport.y + viewport.height`.
   */
  function FlipIntoViewport(viewport: Rect, p: ScreenPoint): (r: ScreenPoint)
    ensures r.x == p.x
    ensures r.y + p.y == viewport.y + viewport.height
  {
    ScreenPoint(p.x, viewport.y + (viewport.height - p.y))
  }

  /** The flip is its own inverse, and so maps distinct points to distinct points. */
  lemma {:induction false} FlipIsAnInvolution(viewport: Rect, p: ScreenPoint, q: ScreenPoint)
    ensures FlipIntoViewport(viewport, FlipIntoViewport(viewport, p)) == p
    ensures FlipIntoViewport(viewport, p) == FlipIntoViewport(viewport, q) ==> p == q
  {
    var fp, fq := FlipIntoViewport(viewport, p), FlipIntoViewport(viewport, q);
    assert FlipIntoViewport(viewport, fp).y == p.y;
    if fp == fq {
      assert p.y == q.y;
    }
  }

  class Camera {
    var position: Point
    var viewport: Rect
    var pitch: real
    var fieldOfView: int

    /** What every operation keeps: a pitch in [-90, 90] and a field of view in [5, 85]. */
    ghost predicate Valid()
      reads this
    {
      && -MaxVertical <= pitch <= MaxVertical
      && MinFieldOfView <= fieldOfView <= MaxFieldOfView
    }

    /** A camera at the origin, looking level, with a 45-degree field of view. */
    constructor()
      ensures Valid()
      ensures position == Point(0.0, 0.0, 0.0) && viewport == Rect(0, 0, 0, 0)
      ensures pitch == 0.0 && fieldOfView == DefaultFieldOfView
    {
      position := Point(0.0, 0.0, 0.0);
      viewport := Rect(0, 0, 0, 0);
      pitch := 0.0;
      fieldOfView := DefaultFieldOfView;
    }

    function GetPosition(): Point
      reads this
    {
      position
    }

    /** `SetPosition`: a later `GetPosition` returns the new position, and nothing else moves. */
    method SetPosition(newPosition: Point)
      modifies this
      ensures GetPosition() == newPosition
      ensures pitch == old(pitch) && fieldOfView == old(fieldOfView) && viewport == old(viewport)
    {
      position := newPosition;
    }

    /** `OffsetPosition`: the position moves by the offset, component by component. */
    method OffsetPosition(offset: Point)
      modifies this
      ensures GetPosition() == Add(old(GetPosition()), offset)
      ensures pitch == old(pitch) && fieldOfView == old(fieldOfView) && viewport == old(viewport)
    {
      position := Add(position, offset);
    }

    /** `SetOrientation`: the pitch is the requested one, clamped to [-90, 90]. */
    method SetOrientation(newPitch: real)
      requires Valid()
      modifies this
      ensures Valid()
      ensures pitch == ClampedPitch(newPitch)
      ensures position == old(position) && fieldOfView == old(fieldOfView) && viewport == old(viewport)
    {
      pitch := newPitch;
      NormalizePitch();
    }

    /** `OffsetOrientation`: the pitch moves by the offset and is then clamped to [-90, 90]. */
    method OffsetOrientation(pitchOffset: real)
      requires Valid()
      modifies this
      ensures Valid()
      ensures pitch == ClampedPitch(old(pitch) + pitchOffset)
      ensures position == old(position) && fieldOfView == old(fieldOfView) && viewport == old(viewport)
    {
      pitch := pitch + pitchOffset;
      NormalizePitch();
    }

    /** The pitch half of `NormalizeAngles`, applied to the field in place. */
    method NormalizePitch()
      modifies this
      ensures pitch == ClampedPitch(old(pitch))
      ensures position == old(position) && fieldOfView == old(fieldOfView) && viewport == old(viewport)
    {
      if pitch > MaxVertical {
        pitch := MaxVertical;
      } else if pitch < -MaxVertical {
        pitch := -MaxVertical;
      }
    }

    /** `SetViewport`; the aspect ratio it also derives is floating point and not modelled. */
    method SetViewport(size: Rect)
      modifies this
      ensures viewport == size
      ensures position == old(position) && pitch == old(pitch) && fieldOfView == old(fieldOfView)
    {
      viewport := size;
    }

    /** `MapToOpenGLViewport`: the widget point flipped into the current viewport. */
    function MapToOpenGLViewport(widgetCoordinates: ScreenPoint): (r: ScreenPoint)
      reads this
      ensures r.x == widgetCoordinates.x
      ensures r.y + widgetCoordinates.y == viewport.y + viewport.height
    {
      FlipIntoViewport(viewport, widgetCoordinates)
    }

    /** `SetFieldOfView`: the angle is stored clamped to [5, 85]. */
    method SetFieldOfView(angle: int)
      requires Valid()
      modifies this
      ensures Valid()
      ensures fieldOfView == ClampedFieldOfView(angle)
      ensures position == old(position) && pitch == old(pitch) && viewport == old(viewport)
    {
      if angle > MaxFieldOfView {
        fieldOfView := MaxFieldOfView;
      } else if angle < MinFieldOfView {
        fieldOfView := MinFieldOfView;
      } else {
        fieldOfView := angle;
      }
    }

    /**
     * `IncreaseFieldOfView`: five degrees wider, but never past 85.  Only the upper bound is
     * checked, which suffices because the field of view already lies in range.
     */
    method IncreaseFieldOfView()
      requires Valid()
      modifies this
      ensures Valid()
      ensures fieldOfView == ClampedFieldOfView(old(fieldOfView) + FieldOfViewStep)
      ensures old(fieldOfView) < MaxFieldOfView ==> fieldOfView > old(fieldOfView)
      ensures position == old(position) && pitch == old(pitch) && viewport == old(viewport)
    {
      fieldOfView := fieldOfView + FieldOfViewStep;
      if fieldOfView > MaxFieldOfView {
        fieldOfView := MaxFieldOfView;
      }
    }

    /** `DecreaseFieldOfView`: five degrees narrower, but never below 5. */
    method DecreaseFieldOfView()
      requires Valid()
      modifies this
      ensures Valid()
      ensures fieldOfView == ClampedFieldOfView(old(fieldOfView) - FieldOfViewStep)
      ensures old(fieldOfView) > MinFieldOfView ==> fieldOfView < old(fieldOfView)
      ensures position == old(position) && pitch == old(pitch) && viewport == old(viewport)
    {
      fieldOfView := fieldOfView - FieldOfViewStep;
      if fieldOfView < MinFieldOfView {
        fieldOfView := MinFieldOfView;
      }
    }
  }

  /** Widening and then narrowing returns to the same field of view unless the first step was capped. */
  lemma WidenThenNarrow(fieldOfView: int)
    requires MinFieldOfView <= fieldOfView <= MaxFieldOfView - FieldOfViewStep
    ensures ClampedFieldOfView(ClampedFieldOfView(fieldOfView + FieldOfViewStep) - FieldOfViewStep) == fieldOfView
  {
  }
}
