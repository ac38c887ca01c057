/** The scroll-driven preloading rule of the performance manager. On each
    (throttled) scroll event the direction is worked out from the previous
    scroll position, and every lazy image not yet loaded is started when its
    distance from the viewport, measured in the scroll direction, lies inside
    a window that reaches two screens ahead going down and one going up.
    Positions are those of `getBoundingClientRect`, relative to the top of the
    viewport. */
module Preload {

  datatype Direction = Down | Up

  /** Scrolling counts as downwards only when the position grew; standing
      still counts as upwards. */
  function ScrollDirection(currentY: int, lastY: int): (d: Direction)
    ensures d == Down <==> currentY > lastY
  {
    if currentY > lastY then Down else Up
  }

  /** How far ahead to preload: two screens going down, one going up. */
  function Reach(d: Direction, viewport: int): int {
    if d == Down then viewport * 2 else viewport
  }

  /** The distance from the viewport edge in the scroll direction. */
  function Distance(d: Direction, viewport: int, top: int, bottom: int): int {
    if d == Down then top - viewport else viewport - bottom
  }

  /** The preload test: the image starts loading when going down and its top
      edge lies strictly within three screens below the top of the viewport,
      or when going up and its bottom edge lies strictly within two screens. */
  predicate ShouldPreload(d: Direction, viewport: int, top: int, bottom: int)
    ensures ShouldPreload(d, viewport, top, bottom) <==>
      (d == Down && 0 < top < 3 * viewport) || (d == Up && 0 < bottom < 2 * viewport)
  {
    var distance := Distance(d, viewport, top, bottom);
    distance < Reach(d, viewport) && distance > -viewport
  }

  datatype LazyImage = LazyImage(top: int, bottom: int, loaded: bool)

  /** The images one scroll event starts, as positions in `images`: exactly the
      ones not yet loaded that pass the test, in document order. */
  method SelectPreload(d: Direction, viewport: int, images: seq<LazyImage>)
    returns (picked: seq<nat>)
    ensures forall i :: i in picked <==>
      0 <= i < |images| && !images[i].loaded
      && ShouldPreload(d, viewport, images[i].top, images[i].bottom)
    ensures forall a, b :: 0 <= a < b < |picked| ==> picked[a] < picked[b]
  {
    picked := [];
    var n := 0;
    while n < |images|
      invariant 0 <= n <= |images|
      invariant forall i :: i in picked <==>
        0 <= i < n && !images[i].loaded
        && ShouldPreload(d, viewport, images[i].top, images[i].bottom)
      invariant forall a, b :: 0 <= a < b < |picked| ==> picked[a] < picked[b]
      invariant forall a :: 0 <= a < |picked| ==> picked[a] < n
    {
      var img := images[n];
      if !img.loaded && ShouldPreload(d, viewport, img.top, img.bottom) {
        picked := picked + [n];
      }
      n := n + 1;
    }
  }

  /** One scroll event: the new remembered position and the images started. */
  method OnScroll(lastY: int, currentY: int, viewport: int, images: seq<LazyImage>)
    returns (newLastY: int, picked: seq<nat>)
    ensures newLastY == currentY
    ensures forall i :: i in picked <==>
      0 <= i < |images| && !images[i].loaded
      && ShouldPreload(ScrollDirection(currentY, lastY), viewport, images[i].top, images[i].bottom)
  {
    var d := ScrollDirection(currentY, lastY);
    newLastY := currentY;
    picked := SelectPreload(d, viewport, images);
  }
}
