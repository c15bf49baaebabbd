/** The pure part of the desktop window manager in main.py: how much of a
    window lies on a monitor, which monitor a window is on, and the title
    filter of the window list. A rectangle is `(x, y, width, height)` in
    integer screen coordinates, as screeninfo and pygetwindow report them. */
module WindowGeometry {
  import opened Wrappers
  import opened Seqs
  import opened Text

  datatype Rect = Rect(x: int, y: int, w: int, h: int)

  function Max(a: int, b: int): int { if a >= b then a else b }
  function Min(a: int, b: int): int { if a <= b then a else b }

  /** The overlap of the two rectangles along one axis, or 0. */
  function Overlap(a: int, aLen: int, b: int, bLen: int): (r: int)
    ensures r >= 0
    ensures r > 0 <==> aLen > 0 && bLen > 0 && a < b + bLen && b < a + aLen
    ensures aLen >= 0 ==> r <= aLen
  {
    Max(0, Min(a + aLen, b + bLen) - Max(a, b))
  }

  /** `rect_intersection_area`: the area the two rectangles share. */
  function IntersectionArea(r1: Rect, r2: Rect): (area: int)
    ensures area >= 0
  {
    Overlap(r1.x, r1.w, r2.x, r2.w) * Overlap(r1.y, r1.h, r2.y, r2.h)
  }

  /** The area is positive exactly when the rectangles overlap on both axes. */
  lemma IntersectionPositive(r1: Rect, r2: Rect)
    ensures IntersectionArea(r1, r2) > 0 <==>
      Max(r1.x, r2.x) < Min(r1.x + r1.w, r2.x + r2.w) &&
      Max(r1.y, r2.y) < Min(r1.y + r1.h, r2.y + r2.h)
  {
    var a, b := Overlap(r1.x, r1.w, r2.x, r2.w), Overlap(r1.y, r1.h, r2.y, r2.h);
    if a > 0 && b > 0 {
      assert a * b >= b;
    }
  }

  lemma IntersectionSymmetric(r1: Rect, r2: Rect)
    ensures IntersectionArea(r1, r2) == IntersectionArea(r2, r1)
  {
  }

  /** Rectangles side by side, even touching along an edge, share nothing. */
  lemma DisjointHaveNoIntersection(r1: Rect, r2: Rect)
    requires r1.x + r1.w <= r2.x || r2.x + r2.w <= r1.x || r1.y + r1.h <= r2.y || r2.y + r2.h <= r1.y
    ensures IntersectionArea(r1, r2) == 0
  {
    IntersectionPositive(r1, r2);
  }

  lemma MulMonotonic(a: int, b: int, c: int, d: int)
    requires 0 <= a <= c && 0 <= b <= d
    ensures a * b <= c * d
  {
    assert a * b <= c * b;
    assert c * b <= c * d;
  }

  /** A rectangle with non-negative sides shares at most its own area. */
  lemma IntersectionBounded(r1: Rect, r2: Rect)
    requires r1.w >= 0 && r1.h >= 0 && r2.w >= 0 && r2.h >= 0
    ensures IntersectionArea(r1, r2) <= r1.w * r1.h
    ensures IntersectionArea(r1, r2) <= r2.w * r2.h
  {
    var a, b := Overlap(r1.x, r1.w, r2.x, r2.w), Overlap(r1.y, r1.h, r2.y, r2.h);
    MulMonotonic(a, b, r1.w, r1.h);
    MulMonotonic(a, b, r2.w, r2.h);
  }

  /** A rectangle with non-negative sides shares all of its area with itself. */
  lemma SelfIntersection(r: Rect)
    requires r.w >= 0 && r.h >= 0
    ensures IntersectionArea(r, r) == r.w * r.h
  {
  }

  /** `find_monitor_for_window`: the index of the first monitor with the
      largest positive overlap, found by a scan that only replaces the best
      so far on a strictly larger area; `None` when nothing overlaps. */
  method FindMonitorForWindow(window: Rect, monitors: seq<Rect>) returns (best: Option<nat>)
    ensures best.None? <==> forall j :: 0 <= j < |monitors| ==> IntersectionArea(window, monitors[j]) == 0
    ensures best.Some? ==>
      && best.value < |monitors|
      && IntersectionArea(window, monitors[best.value]) > 0
      && (forall j :: 0 <= j < |monitors| ==>
            IntersectionArea(window, monitors[j]) <= IntersectionArea(window, monitors[best.value]))
      && (forall j :: 0 <= j < best.value ==>
            IntersectionArea(window, monitors[j]) < IntersectionArea(window, monitors[best.value]))
  {
    var maxArea := 0;
    best := None;
    for i := 0 to |monitors|
      invariant best.None? ==> maxArea == 0 && forall j :: 0 <= j < i ==> IntersectionArea(window, monitors[j]) == 0
      invariant best.Some? ==>
        && best.value < i
        && maxArea == IntersectionArea(window, monitors[best.value]) > 0
        && (forall j :: 0 <= j < i ==> IntersectionArea(window, monitors[j]) <= maxArea)
        && (forall j :: 0 <= j < best.value ==> IntersectionArea(window, monitors[j]) < maxArea)
    {
      var area := IntersectionArea(window, monitors[i]);
      if area > maxArea {
        maxArea := area;
        best := Some(i);
      }
    }
  }

  /** A window of the list; only its title matters to the filter. */
  datatype Window = Window(title: string)

  /** The filter's test: the lower-cased title contains the lower-cased text. */
  function TitleFilter(needle: string): Window -> bool {
    (w: Window) => Contains(Lower(w.title), needle)
  }

  /** `DisplayManagerApp.filter_windows`: the list itself for an empty
      filter, otherwise the windows whose title contains the filter text,
      ignoring case, in list order. */
  function FilterWindows(filterText: string, windows: seq<Window>): (r: seq<Window>)
    ensures filterText == "" ==> r == windows
    ensures |r| <= |windows|
    ensures forall w :: w in r <==>
      w in windows && (filterText == "" || Contains(Lower(w.title), Lower(filterText)))
  {
    if filterText == "" then windows
    else Filter(windows, TitleFilter(Lower(filterText)))
  }

  /** The filter keeps the order of the list: split the list anywhere and
      the result splits at the same point. */
  lemma FilterWindowsKeepsOrder(filterText: string, a: seq<Window>, b: seq<Window>)
    ensures FilterWindows(filterText, a + b) == FilterWindows(filterText, a) + FilterWindows(filterText, b)
  {
    if filterText != "" {
      FilterConcat(a, b, TitleFilter(Lower(filterText)));
    }
  }

  /** The shortcut for an empty filter agrees with the comprehension: the
      empty text occurs in every title. */
  lemma EmptyFilterMatchesAll(windows: seq<Window>)
    ensures Filter(windows, TitleFilter(Lower(""))) == FilterWindows("", windows)
  {
    forall w | w in windows
      ensures TitleFilter(Lower(""))(w)
    {
      ContainsEmpty(Lower(w.title));
    }
    FilterKeepsAll(windows, TitleFilter(Lower("")));
  }
}
