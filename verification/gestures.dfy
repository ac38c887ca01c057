/** The touch gesture classifier: a state machine over the active touches
    (a `Map` from touch identifier to start and current position), the
    gesture in progress, the last tap and the pinch bookkeeping. Touch start
    classifies by the number of fingers, a move turns a one-finger touch into
    a swipe once it has travelled more than 50 px, a release ends a tap or a
    pinch, and the scale of a pinch is clamped to [0.5, 5].

    Distances are compared squared: for a distance d = sqrt(q) with q >= 0,
    d > 50 exactly when q > 2500 and d < 10 exactly when q < 100 (see
    `SquaredComparison`). Coordinates and times are whole pixels and
    milliseconds. */
module Gestures {
  import opened Common
  import OrderedMap

  const SwipeMinDistance: int := 50
  const TapMaxTime: int := 200
  const TapMaxDistance: int := 10
  const DoubleTapMaxTime: int := 400
  const PinchMinScale: real := 0.5
  const PinchMaxScale: real := 5.0

  /** `currentGesture` when it is not null. */
  datatype Kind = PotentialSwipeOrTap | Swipe | Pinch | MultiTouch

  datatype Direction = Left | Right | Up | Down

  datatype TouchPoint = TouchPoint(startX: int, startY: int, currentX: int, currentY: int, startTime: int)

  /** One entry of an event's `changedTouches`. */
  datatype TouchInput = TouchInput(id: int, x: int, y: int)

  /** `lastTap`: where and when the last single tap happened. */
  datatype TapRecord = TapRecord(x: int, y: int, time: int)

  type Touches = seq<OrderedMap.Entry<int, TouchPoint>>

  /** `pinching` stands for a non-null `pinchData`. */
  datatype GestureState = GestureState(
    enabled: bool,
    gesture: Option<Kind>,
    touches: Touches,
    lastTap: Option<TapRecord>,
    pinching: bool,
    lastPinchScale: Option<real>)

  datatype GestureEvent =
    | SwipeMove(direction: Direction, dx: int, dy: int)
    | SwipeDone(direction: Direction, dx: int, dy: int, duration: int)
    | TapAt(x: int, y: int)
    | DoubleTapAt(x: int, y: int)
    | PinchAt(scale: real, deltaScale: real)
    | PinchEnd(finalScale: real)
    | MultiTouchAt(count: nat)

  const Initial: GestureState := GestureState(true, None, [], None, false, None)

  /** The state machine's invariant: a touch identifier is held once, no
      gesture is in progress without touches, and a disabled classifier
      holds no touches. */
  ghost predicate Valid(st: GestureState) {
    && OrderedMap.UniqueKeys(st.touches)
    && (|st.touches| == 0 ==> st.gesture.None?)
    && (!st.enabled ==> |st.touches| == 0)
  }

  // ----- geometry -----

  function Abs(x: int): (r: nat)
    ensures r == x || r == -x
  {
    if x < 0 then -x else x
  }

  function SquaredDistance(dx: int, dy: int): (q: nat)
    ensures q == 0 <==> dx == 0 && dy == 0
  {
    assert dx * dx >= 0 && dy * dy >= 0;
    assert dx != 0 ==> dx * dx > 0;
    dx * dx + dy * dy
  }

  lemma PositiveProduct(a: real, c: real)
    requires a > 0.0 && c > 0.0
    ensures a * c > 0.0
  {
  }

  lemma SquareMonotone(x: real, y: real)
    requires 0.0 <= x < y
    ensures x * x < y * y
  {
    PositiveProduct(y - x, y + x);
    assert (y - x) * (y + x) == y * y - x * x;
  }

  /** Comparing a square root against a bound is comparing its radicand
      against the bound squared. */
  lemma SquaredComparison(d: real, q: int, bound: int)
    requires d >= 0.0 && bound >= 0 && d * d == q as real
    ensures d > bound as real <==> q > bound * bound
    ensures d < bound as real <==> q < bound * bound
  {
    var b := bound as real;
    assert (bound * bound) as real == b * b;
    if d > b {
      SquareMonotone(b, d);
    } else if d < b {
      SquareMonotone(d, b);
    }
  }

  /** The swipe direction: horizontal when the horizontal travel is strictly
      larger, vertical otherwise (ties included). */
  function SwipeDirection(dx: int, dy: int): (d: Direction)
    ensures (d == Left || d == Right) <==> Abs(dx) > Abs(dy)
    ensures d == Right <==> Abs(dx) > Abs(dy) && dx > 0
    ensures d == Down <==> Abs(dx) <= Abs(dy) && dy > 0
  {
    if Abs(dx) > Abs(dy) then (if dx > 0 then Right else Left)
    else (if dy > 0 then Down else Up)
  }

  function Opposite(d: Direction): Direction {
    match d
    case Left => Right
    case Right => Left
    case Up => Down
    case Down => Up
  }

  /** Reversing a movement along its main axis reverses the direction. */
  lemma SwipeDirectionMirror(dx: int, dy: int)
    ensures Abs(dx) > Abs(dy) ==> SwipeDirection(-dx, dy) == Opposite(SwipeDirection(dx, dy))
    ensures Abs(dx) <= Abs(dy) && dy != 0 ==> SwipeDirection(dx, -dy) == Opposite(SwipeDirection(dx, dy))
  {
  }

  /** The pinch scale, clamped to [0.5, 5]. */
  function ClampScale(s: real): (r: real)
    ensures PinchMinScale <= r <= PinchMaxScale
    ensures PinchMinScale <= s <= PinchMaxScale ==> r == s
    ensures s < PinchMinScale ==> r == PinchMinScale
    ensures s > PinchMaxScale ==> r == PinchMaxScale
  {
    if s < PinchMinScale then PinchMinScale
    else if s > PinchMaxScale then PinchMaxScale
    else s
  }

  lemma ClampScaleMonotone(a: real, b: real)
    requires a <= b
    ensures ClampScale(a) <= ClampScale(b)
    ensures ClampScale(ClampScale(a)) == ClampScale(a)
  {
  }

  // ----- the touch map -----

  /** `touches.set` for every started touch: start and current position are
      where it went down, at time `now`. */
  function AddTouches(ts: Touches, changed: seq<TouchInput>, now: int): (r: Touches)
    ensures OrderedMap.UniqueKeys(ts) ==> OrderedMap.UniqueKeys(r)
    ensures forall c :: c in changed ==> OrderedMap.Lookup(r, c.id).Some?
    ensures forall k :: OrderedMap.Lookup(ts, k).Some? ==> OrderedMap.Lookup(r, k).Some?
    decreases |changed|
  {
    if |changed| == 0 then ts
    else
      var c := changed[0];
      var ts' := OrderedMap.Put(ts, c.id, TouchPoint(c.x, c.y, c.x, c.y, now));
      OrderedMap.PutUnique(ts, c.id, TouchPoint(c.x, c.y, c.x, c.y, now));
      assert forall d :: d in changed ==> d == c || d in changed[1..];
      AddTouches(ts', changed[1..], now)
  }

  /** Record the new position of every moved touch that is known; unknown
      identifiers are ignored. No touch is added, removed or reordered. */
  function MoveTouches(ts: Touches, changed: seq<TouchInput>): (r: Touches)
    ensures |r| == |ts|
    ensures forall i :: 0 <= i < |ts| ==> r[i].key == ts[i].key
    decreases |changed|
  {
    if |changed| == 0 then ts
    else
      var c := changed[0];
      match OrderedMap.Lookup(ts, c.id)
      case None => MoveTouches(ts, changed[1..])
      case Some(t) =>
        var t' := t.(currentX := c.x, currentY := c.y);
        OrderedMap.PutInPlace(ts, c.id, t');
        MoveTouches(OrderedMap.Put(ts, c.id, t'), changed[1..])
  }

  lemma SameKeysUnique(a: Touches, b: Touches)
    requires |a| == |b| && forall i :: 0 <= i < |a| ==> a[i].key == b[i].key
    requires OrderedMap.UniqueKeys(a)
    ensures OrderedMap.UniqueKeys(b)
  {
    forall i, j | 0 <= i < j < |b| ensures b[i].key != b[j].key {
      assert a[i].key != a[j].key;
    }
  }

  // ----- the handlers -----

  /** `detectGestureStart`: classify by the number of active touches; with no
      touch the gesture is left as it is. */
  function DetectGestureStart(count: nat, current: Option<Kind>): (k: Option<Kind>)
    ensures count == 0 ==> k == current
    ensures count > 0 ==> k.Some? && (k.value == PotentialSwipeOrTap <==> count == 1)
    ensures count > 0 ==> (k.value == Pinch <==> count == 2)
    ensures count > 0 ==> (k.value == MultiTouch <==> count >= 3)
  {
    if count == 1 then Some(PotentialSwipeOrTap)
    else if count == 2 then Some(Pinch)
    else if count >= 3 then Some(MultiTouch)
    else current
  }

  /** `handleTouchStart`: register the touches, then classify; two touches
      also start the pinch bookkeeping. Ignored while disabled. */
  function TouchStart(st: GestureState, changed: seq<TouchInput>, now: int): (r: GestureState)
    ensures !st.enabled ==> r == st
    ensures r.enabled == st.enabled && r.lastTap == st.lastTap
  {
    if !st.enabled then st
    else
      var ts := AddTouches(st.touches, changed, now);
      st.(touches := ts,
          gesture := DetectGestureStart(|ts|, st.gesture),
          pinching := if |ts| == 2 then true else st.pinching)
  }

  /** `processSwipe`: with exactly one touch that has travelled more than 50
      px, the gesture becomes a swipe and a `swipe_move` is emitted. */
  function ProcessSwipe(st: GestureState): (r: (GestureState, Option<GestureEvent>))
    ensures r.0.touches == st.touches && r.0.enabled == st.enabled
    ensures r.0 != st ==> r.0 == st.(gesture := Some(Swipe))
    ensures r.1.Some? <==> (|st.touches| == 1 &&
      SquaredDistance(st.touches[0].value.currentX - st.touches[0].value.startX,
                      st.touches[0].value.currentY - st.touches[0].value.startY)
        > SwipeMinDistance * SwipeMinDistance)
    ensures r.1.Some? ==> r.0.gesture == Some(Swipe) && r.1.value.SwipeMove?
  {
    if |st.touches| != 1 then (st, None)
    else
      var t := st.touches[0].value;
      var dx, dy := t.currentX - t.startX, t.currentY - t.startY;
      if SquaredDistance(dx, dy) > SwipeMinDistance * SwipeMinDistance then
        (st.(gesture := Some(Swipe)), Some(SwipeMove(SwipeDirection(dx, dy), dx, dy)))
      else (st, None)
  }

  /** `processPinch`: with two touches and a pinch under way, emit the clamped
      scale and its change from the last one (1 at first). `ratio` is the
      current finger distance divided by the initial one. */
  function ProcessPinch(st: GestureState, ratio: real): (r: (GestureState, Option<GestureEvent>))
    ensures r.0.touches == st.touches && r.0.gesture == st.gesture && r.0.enabled == st.enabled
    ensures r.1.Some? <==> |st.touches| == 2 && st.pinching
    ensures r.1.Some? ==> (r.1.value.PinchAt? && r.0.lastPinchScale == Some(r.1.value.scale)
      && PinchMinScale <= r.1.value.scale <= PinchMaxScale)
  {
    if |st.touches| != 2 || !st.pinching then (st, None)
    else
      var scale := ClampScale(ratio);
      var previous := match st.lastPinchScale case Some(s) => s case None => 1.0;
      (st.(lastPinchScale := Some(scale)), Some(PinchAt(scale, scale - previous)))
  }

  /** `handleTouchMove`: update the known touches' positions, then advance the
      gesture in progress. A gesture already classified as a swipe has no
      move handler. Ignored while disabled or without touches. */
  function TouchMove(st: GestureState, changed: seq<TouchInput>, ratio: real)
    : (r: (GestureState, Option<GestureEvent>))
    ensures !st.enabled || |st.touches| == 0 ==> r == (st, None)
    ensures r.0.enabled == st.enabled && r.0.lastTap == st.lastTap
    ensures |r.0.touches| == |st.touches|
    ensures forall i :: 0 <= i < |st.touches| ==> r.0.touches[i].key == st.touches[i].key
    ensures r.0.gesture != st.gesture ==> st.gesture == Some(PotentialSwipeOrTap) && r.0.gesture == Some(Swipe)
  {
    if !st.enabled || |st.touches| == 0 then (st, None)
    else
      var st1 := st.(touches := MoveTouches(st.touches, changed));
      match st.gesture
      case Some(PotentialSwipeOrTap) => ProcessSwipe(st1)
      case Some(Pinch) => ProcessPinch(st1, ratio)
      case Some(MultiTouch) => (st1, Some(MultiTouchAt(|st1.touches|)))
      case _ => (st1, None)
  }

  // ----- taps, as written and corrected -----

  /** A JavaScript number where it matters: reading a field a record does
      not have gives `undefined`, and arithmetic on it gives NaN. */
  datatype JsNumber = Finite(n: int) | NaN

  function Minus(a: JsNumber, b: JsNumber): JsNumber {
    if a.NaN? || b.NaN? then NaN else Finite(a.n - b.n)
  }

  /** A record passed to `getDistance`: a touch, or the `lastTap` record,
      whose fields are `x`, `y` and `time`. */
  datatype Positioned = OfTouch(t: TouchPoint) | OfTap(tap: TapRecord)

  function CurrentX(p: Positioned): JsNumber {
    match p
    case OfTouch(t) => Finite(t.currentX)
    case OfTap(_) => NaN
  }

  function CurrentY(p: Positioned): JsNumber {
    match p
    case OfTouch(t) => Finite(t.currentY)
    case OfTap(_) => NaN
  }

  /** `getDistance(a, b) < bound`, on the radicand: a NaN compares false. */
  predicate GetDistanceBelow(a: Positioned, b: Positioned, bound: int) {
    var dx, dy := Minus(CurrentX(a), CurrentX(b)), Minus(CurrentY(a), CurrentY(b));
    dx.Finite? && dy.Finite? && SquaredDistance(dx.n, dy.n) < bound * bound
  }

  /** The two versions of the classifier: the code as written, and with the
      two corrections (double-tap distance from the tap's `x`/`y`, and a
      finished swipe routed to the end-of-swipe handler). */
  datatype Variant = AsWritten | Corrected

  /** The double-tap distance test: as written it reads `currentX`/`currentY`
      of the `lastTap` record; corrected it reads its `x`/`y`. */
  predicate CloseToLastTap(v: Variant, t: TouchPoint, tap: TapRecord) {
    match v
    case AsWritten => GetDistanceBelow(OfTouch(t), OfTap(tap), TapMaxDistance)
    case Corrected =>
      SquaredDistance(t.currentX - tap.x, t.currentY - tap.y) < TapMaxDistance * TapMaxDistance
  }

  /** `processTap`: a tap close in time and place to the last one is a double
      tap and forgets it; any other tap is a single tap and becomes the last
      one. */
  function ProcessTap(v: Variant, st: GestureState, t: TouchPoint, now: int)
    : (r: (GestureState, Option<GestureEvent>))
    ensures r.0 == st.(lastTap := r.0.lastTap)
    ensures r.1 == Some(DoubleTapAt(t.currentX, t.currentY)) <==>
      st.lastTap.Some? && now - st.lastTap.value.time < DoubleTapMaxTime
      && CloseToLastTap(v, t, st.lastTap.value)
    ensures r.1 != Some(DoubleTapAt(t.currentX, t.currentY)) ==>
      r.1 == Some(TapAt(t.currentX, t.currentY)) && r.0.lastTap == Some(TapRecord(t.currentX, t.currentY, now))
    ensures r.1 == Some(DoubleTapAt(t.currentX, t.currentY)) ==> r.0.lastTap.None?
  {
    if st.lastTap.Some? && now - st.lastTap.value.time < DoubleTapMaxTime
       && CloseToLastTap(v, t, st.lastTap.value) then
      (st.(lastTap := None), Some(DoubleTapAt(t.currentX, t.currentY)))
    else
      (st.(lastTap := Some(TapRecord(t.currentX, t.currentY, now))), Some(TapAt(t.currentX, t.currentY)))
  }

  /** `finalizeTapOrSwipe`: with exactly one touch, a swipe ends with a
      `swipe` event, and anything else that moved less than 10 px in less
      than 200 ms is a tap. */
  function FinalizeTapOrSwipe(v: Variant, st: GestureState, now: int)
    : (r: (GestureState, Option<GestureEvent>))
    ensures r.0 == st.(lastTap := r.0.lastTap)
    ensures |st.touches| != 1 ==> r == (st, None)
    ensures (|st.touches| == 1 && st.gesture == Some(Swipe)) ==>
      var t := st.touches[0].value;
      r == (st, Some(SwipeDone(SwipeDirection(t.currentX - t.startX, t.currentY - t.startY),
                               t.currentX - t.startX, t.currentY - t.startY, now - t.startTime)))
    ensures (|st.touches| == 1 && st.gesture != Some(Swipe)) ==>
      var t := st.touches[0].value;
      (r.1.Some? <==> SquaredDistance(t.currentX - t.startX, t.currentY - t.startY) < TapMaxDistance * TapMaxDistance
                      && now - t.startTime < TapMaxTime)
      && (r.1.Some? ==> r.1.value.TapAt? || r.1.value.DoubleTapAt?)
  {
    if |st.touches| != 1 then (st, None)
    else
      var t := st.touches[0].value;
      var dx, dy := t.currentX - t.startX, t.currentY - t.startY;
      var duration := now - t.startTime;
      if st.gesture == Some(Swipe) then
        (st, Some(SwipeDone(SwipeDirection(dx, dy), dx, dy, duration)))
      else if SquaredDistance(dx, dy) < TapMaxDistance * TapMaxDistance && duration < TapMaxTime then
        ProcessTap(v, st, t, now)
      else (st, None)
  }

  /** `finalizePinch`: report the last scale (1 if none) and drop the pinch
      bookkeeping. */
  function FinalizePinch(st: GestureState): (r: (GestureState, Option<GestureEvent>))
    ensures r.0 == st.(pinching := false, lastPinchScale := None)
    ensures r.1.Some? && r.1.value.PinchEnd?
    ensures st.lastPinchScale.None? ==> r.1.value.finalScale == 1.0
  {
    var s := match st.lastPinchScale case Some(s) => s case None => 1.0;
    (st.(pinching := false, lastPinchScale := None), Some(PinchEnd(s)))
  }

  /** `processGestureEnd`: as written only a potential swipe-or-tap and a
      pinch are finalised; corrected, a swipe is finalised too. */
  function ProcessGestureEnd(v: Variant, st: GestureState, now: int)
    : (r: (GestureState, Option<GestureEvent>))
    ensures r.0.touches == st.touches && r.0.gesture == st.gesture && r.0.enabled == st.enabled
  {
    match st.gesture
    case Some(PotentialSwipeOrTap) => FinalizeTapOrSwipe(v, st, now)
    case Some(Pinch) => FinalizePinch(st)
    case Some(Swipe) => if v == Corrected then FinalizeTapOrSwipe(v, st, now) else (st, None)
    case _ => (st, None)
  }

  /** `handleTouchEnd`: finalise the gesture, forget the ended touches, and
      reset the gesture when none is left. Ignored while disabled. */
  function TouchEnd(v: Variant, st: GestureState, ended: seq<int>, now: int)
    : (r: (GestureState, Option<GestureEvent>))
    ensures !st.enabled ==> r == (st, None)
    ensures r.0.enabled == st.enabled
    ensures |r.0.touches| <= |st.touches|
    ensures forall id :: id in ended && st.enabled ==> OrderedMap.Lookup(r.0.touches, id).None?
    ensures st.enabled && |r.0.touches| == 0 ==> r.0.gesture.None?
  {
    if !st.enabled then (st, None)
    else
      var (st1, event) := ProcessGestureEnd(v, st, now);
      var ts := OrderedMap.Without(st1.touches, ended);
      (st1.(touches := ts, gesture := if |ts| == 0 then None else st1.gesture), event)
  }

  /** `handleTouchCancel`: forget every touch and the gesture. */
  function TouchCancel(st: GestureState): (r: GestureState)
    ensures |r.touches| == 0 && r.gesture.None?
    ensures r.enabled == st.enabled && r.lastTap == st.lastTap
  {
    st.(touches := [], gesture := None)
  }

  /** `disable`: stop reacting and forget every touch and the gesture. */
  function Disable(st: GestureState): (r: GestureState)
    ensures !r.enabled && |r.touches| == 0 && r.gesture.None?
  {
    st.(enabled := false, touches := [], gesture := None)
  }

  function Enable(st: GestureState): (r: GestureState)
    ensures r.enabled
    ensures r.touches == st.touches && r.gesture == st.gesture
  {
    st.(enabled := true)
  }

  // ----- properties of the machine -----

  /** Every handler keeps the invariant. */
  lemma TransitionsKeepValid(v: Variant, st: GestureState, changed: seq<TouchInput>,
                             ended: seq<int>, now: int, ratio: real)
    requires Valid(st)
    ensures Valid(TouchStart(st, changed, now))
    ensures Valid(TouchMove(st, changed, ratio).0)
    ensures Valid(TouchEnd(v, st, ended, now).0)
    ensures Valid(TouchCancel(st)) && Valid(Disable(st)) && Valid(Enable(st))
  {
    if st.enabled {
      var ts := AddTouches(st.touches, changed, now);
      if |ts| == 0 {
        assert |changed| == 0;
      }
      if |st.touches| > 0 {
        SameKeysUnique(st.touches, TouchMove(st, changed, ratio).0.touches);
      }
      OrderedMap.WithoutUnique(st.touches, ended);
    }
  }

  /** On an enabled classifier, a touch start with at least one new touch
      classifies by the number of active touches. */
  lemma TouchStartClassifies(st: GestureState, changed: seq<TouchInput>, now: int)
    requires st.enabled && |changed| > 0
    ensures var r := TouchStart(st, changed, now);
      |r.touches| >= 1
      && (r.gesture == Some(PotentialSwipeOrTap) <==> |r.touches| == 1)
      && (r.gesture == Some(Pinch) <==> |r.touches| == 2)
      && (r.gesture == Some(MultiTouch) <==> |r.touches| >= 3)
  {
    assert changed[0] in changed;
  }

  /** As written, a finished swipe is never reported: the `swipe` event is
      emitted only by `finalizeTapOrSwipe` for a gesture already classified
      as a swipe, and that gesture is never routed there. */
  lemma SwipeNeverEmitted(st: GestureState, ended: seq<int>, now: int)
    ensures var e := TouchEnd(AsWritten, st, ended, now).1;
      !(e.Some? && e.value.SwipeDone?)
  {
  }

  /** As written, a double tap is never reported: the distance to the last
      tap reads fields the tap record does not have and is NaN. */
  lemma DoubleTapNeverEmitted(st: GestureState, ended: seq<int>, now: int)
    ensures var e := TouchEnd(AsWritten, st, ended, now).1;
      !(e.Some? && e.value.DoubleTapAt?)
  {
    if st.enabled && st.gesture == Some(PotentialSwipeOrTap) && |st.touches| == 1 && st.lastTap.Some? {
      assert !CloseToLastTap(AsWritten, st.touches[0].value, st.lastTap.value);
    }
  }

  /** A concrete trace: a finger goes down at (0, 0), moves 100 px to the
      right (a swipe to the right is recognised) and lifts after 150 ms. As
      written the release reports nothing; corrected it reports the swipe. */
  lemma SwipeTrace()
    ensures var s1 := TouchStart(Initial, [TouchInput(7, 0, 0)], 0);
      var (s2, moved) := TouchMove(s1, [TouchInput(7, 100, 0)], 1.0);
      moved == Some(SwipeMove(Right, 100, 0))
      && TouchEnd(AsWritten, s2, [7], 150) == (s2.(touches := [], gesture := None), None)
      && TouchEnd(Corrected, s2, [7], 150).1 == Some(SwipeDone(Right, 100, 0, 150))
  {
    var s1 := TouchStart(Initial, [TouchInput(7, 0, 0)], 0);
    assert s1.touches == [OrderedMap.Entry(7, TouchPoint(0, 0, 0, 0, 0))];
    var s2 := TouchMove(s1, [TouchInput(7, 100, 0)], 1.0).0;
    assert s2.touches == [OrderedMap.Entry(7, TouchPoint(0, 0, 100, 0, 0))];
    assert SquaredDistance(100, 0) == 10000;
  }

  /** Corrected, a swipe released with one finger is reported with its
      direction, travel and duration. */
  lemma SwipeEmittedWhenCorrected(st: GestureState, ended: seq<int>, now: int)
    requires st.enabled && st.gesture == Some(Swipe) && |st.touches| == 1
    ensures var t := st.touches[0].value;
      var dx, dy := t.currentX - t.startX, t.currentY - t.startY;
      TouchEnd(Corrected, st, ended, now).1 == Some(SwipeDone(SwipeDirection(dx, dy), dx, dy, now - t.startTime))
  {
  }

  /** Corrected, a quick second tap within 400 ms and 10 px of the last one
      is reported as a double tap. */
  lemma DoubleTapEmittedWhenCorrected(st: GestureState, ended: seq<int>, now: int)
    requires st.enabled && st.gesture == Some(PotentialSwipeOrTap) && |st.touches| == 1
    requires var t := st.touches[0].value;
      SquaredDistance(t.currentX - t.startX, t.currentY - t.startY) < TapMaxDistance * TapMaxDistance
      && now - t.startTime < TapMaxTime
    requires st.lastTap.Some? && now - st.lastTap.value.time < DoubleTapMaxTime
    requires var t := st.touches[0].value;
      SquaredDistance(t.currentX - st.lastTap.value.x, t.currentY - st.lastTap.value.y)
        < TapMaxDistance * TapMaxDistance
    ensures var t := st.touches[0].value;
      TouchEnd(Corrected, st, ended, now).1 == Some(DoubleTapAt(t.currentX, t.currentY))
      && TouchEnd(Corrected, st, ended, now).0.lastTap.None?
  {
  }
}
