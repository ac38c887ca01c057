/** The responsive manager: the window width classified into a breakpoint,
    the debounced resize handler that reacts only to a change of breakpoint,
    and the sizes the mobile reader layout derives from the viewport. */
module Responsive {
  import opened Common

  const MobileMax: int := 768
  const TabletMax: int := 992
  /** Declared in the table of breakpoints but never consulted. */
  const DesktopMin: int := 1200

  datatype Breakpoint = Mobile | Tablet | Desktop

  function Rank(b: Breakpoint): nat {
    match b
    case Mobile => 0
    case Tablet => 1
    case Desktop => 2
  }

  /** `getCurrentBreakpoint`: both bounds inclusive. */
  function BreakpointOf(width: int): (b: Breakpoint)
    ensures b == Mobile <==> width <= MobileMax
    ensures b == Tablet <==> MobileMax < width <= TabletMax
    ensures b == Desktop <==> width > TabletMax
  {
    if width <= MobileMax then Mobile
    else if width <= TabletMax then Tablet
    else Desktop
  }

  /** A wider window never gets a smaller breakpoint. */
  lemma BreakpointMonotone(w1: int, w2: int)
    requires w1 <= w2
    ensures Rank(BreakpointOf(w1)) <= Rank(BreakpointOf(w2))
  {
  }

  predicate IsMobile(b: Breakpoint) { b == Mobile }
  predicate IsTablet(b: Breakpoint) { b == Tablet }
  predicate IsDesktop(b: Breakpoint) { b == Desktop }

  /** Exactly one of `isMobile`, `isTablet`, `isDesktop` holds, whatever the
      width, and 1200 px plays no part: 993 px is already desktop. */
  lemma ExactlyOneBreakpoint(width: int)
    ensures var b := BreakpointOf(width);
      (IsMobile(b) || IsTablet(b) || IsDesktop(b))
      && !(IsMobile(b) && IsTablet(b)) && !(IsMobile(b) && IsDesktop(b)) && !(IsTablet(b) && IsDesktop(b))
    ensures IsDesktop(BreakpointOf(TabletMax + 1)) && TabletMax + 1 < DesktopMin
  {
  }

  /** What one (debounced) resize does. */
  datatype ResizeEffect = ResizeEffect(
    breakpoint: Breakpoint,
    layoutUpdated: bool,
    changeDispatched: bool,
    readerAdjusted: bool)

  /** `handleResize`: the layout update and the `breakpointchange` event only
      on a change of breakpoint; the reader adjustment every time. */
  function HandleResize(current: Breakpoint, width: int): (r: ResizeEffect)
    ensures r.breakpoint == BreakpointOf(width)
    ensures r.layoutUpdated <==> BreakpointOf(width) != current
    ensures r.changeDispatched == r.layoutUpdated
    ensures r.readerAdjusted
  {
    var b := BreakpointOf(width);
    ResizeEffect(b, b != current, b != current, true)
  }

  /** A second resize to the same width changes nothing. */
  lemma ResizeTwiceQuiet(current: Breakpoint, width: int)
    ensures !HandleResize(HandleResize(current, width).breakpoint, width).layoutUpdated
  {
  }

  /** The maximum sizes `adjustMobileReader` sets. */
  datatype ReaderLayout = ReaderLayout(containerMaxHeight: int, imageMaxHeight: int, imageMaxWidth: int)

  /** `window.orientation` of 90 or -90 is landscape. */
  predicate Landscape(orientation: int) {
    orientation == 90 || orientation == -90
  }

  /** `adjustReaderLayout` with `adjustMobileReader`: nothing unless the reader
      is shown with its page image and the breakpoint is mobile, and nothing
      when the page container, header or navigation bar is missing; otherwise
      the container gets the viewport height less the header, the navigation
      bar and a 20 px margin, and the image 20 px less than that, with a
      width margin of 40 px in landscape and 20 px in portrait. */
  function AdjustReaderLayout(readerShown: bool, hasImage: bool, hasFrame: bool, b: Breakpoint,
                              vh: int, vw: int, header: int, nav: int, orientation: int)
    : (r: Option<ReaderLayout>)
    ensures r.Some? <==> readerShown && hasImage && hasFrame && b == Mobile
    ensures r.Some? ==> r.value.containerMaxHeight + header + nav + 20 == vh
    ensures r.Some? ==> r.value.imageMaxHeight + 20 == r.value.containerMaxHeight
    ensures r.Some? ==> r.value.imageMaxWidth == vw - (if Landscape(orientation) then 40 else 20)
  {
    if !readerShown || !hasImage || b != Mobile || !hasFrame then None
    else
      var available := vh - header - nav - 20;
      Some(ReaderLayout(available, available - 20, if Landscape(orientation) then vw - 40 else vw - 20))
  }

  /** A larger viewport never shrinks the page image. */
  lemma ReaderLayoutMonotone(vh1: int, vh2: int, vw1: int, vw2: int, header: int, nav: int, orientation: int)
    requires vh1 <= vh2 && vw1 <= vw2
    ensures var a := AdjustReaderLayout(true, true, true, Mobile, vh1, vw1, header, nav, orientation);
      var c := AdjustReaderLayout(true, true, true, Mobile, vh2, vw2, header, nav, orientation);
      a.value.imageMaxHeight <= c.value.imageMaxHeight && a.value.imageMaxWidth <= c.value.imageMaxWidth
  {
  }

}
