/**
 * The responsive layout state: the viewport width and the two layouts
 * derived from it, split at one breakpoint.
 */
module Responsive {

  /** Widths below this are mobile; the rest are desktop. */
  const Breakpoint: int := 768

  /** What `useResponsive` returns. */
  datatype Layout = Layout(width: int, isMobile: bool, isDesktop: bool)

  /** `useResponsive`, for the width `useClientWidth` reports. */
  function UseResponsive(width: int): (r: Layout)
    ensures r.width == width
    ensures r.isMobile <==> width < Breakpoint
    ensures r.isDesktop <==> width >= Breakpoint
  {
    Layout(width, width < Breakpoint, width >= Breakpoint)
  }

  /** Every width gets exactly one layout. */
  lemma ExactlyOneLayout(width: int)
    ensures UseResponsive(width).isMobile != UseResponsive(width).isDesktop
  {
  }

  /** Widening the viewport never turns a desktop layout back into mobile. */
  lemma DesktopIsUpwardClosed(w1: int, w2: int)
    requires w1 <= w2 && UseResponsive(w1).isDesktop
    ensures UseResponsive(w2).isDesktop
  {
  }

  /** The breakpoint itself is desktop; one pixel less is mobile. */
  lemma BreakpointEdge()
    ensures UseResponsive(Breakpoint).isDesktop && UseResponsive(Breakpoint - 1).isMobile
  {
  }
}
