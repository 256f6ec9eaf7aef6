/**
 * The icon resolver of `src/utils/renderIcon.tsx`: an icon id and an
 * "is this the active page" flag select a glyph and its stroke colour, or
 * nothing at all for an id the resolver does not know.
 */
module RenderIcon {
  import opened Wrappers

  /** The three icon ids a page may carry (they are asset paths in the app). */
  const CircleInfoIcon: string := "/icons/circle-info.svg"
  const FileTextIcon: string := "/icons/file-text.svg"
  const CircleCheckIcon: string := "/icons/circle-check.svg"

  /** Stroke colours: accent for the active page, neutral otherwise. */
  const ActiveStroke: string := "#F59D0E"
  const InactiveStroke: string := "#8C93A1"

  /** The glyph drawn for each known id; the SVG path data is left out. */
  datatype Glyph = CircleInfo | FileText | CircleCheck

  /** A rendered icon: which glyph, stroked in which colour. */
  datatype Icon = Icon(glyph: Glyph, stroke: string)

  predicate KnownIcon(iconType: string) {
    iconType == CircleInfoIcon || iconType == FileTextIcon || iconType == CircleCheckIcon
  }

  /** The `iconColor` choice: it looks at the active flag only. */
  function StrokeColor(isActive: bool): (c: string)
    ensures c == ActiveStroke <==> isActive
    ensures c == InactiveStroke <==> !isActive
  {
    if isActive then ActiveStroke else InactiveStroke
  }

  /** The `switch` over the icon id; the default branch returns null. */
  function Render(iconType: string, isActive: bool): (r: Option<Icon>)
    ensures r.Some? <==> KnownIcon(iconType)
    ensures r.Some? ==> r.value.stroke == StrokeColor(isActive)
    ensures iconType == CircleInfoIcon ==> r == Some(Icon(CircleInfo, StrokeColor(isActive)))
    ensures iconType == FileTextIcon ==> r == Some(Icon(FileText, StrokeColor(isActive)))
    ensures iconType == CircleCheckIcon ==> r == Some(Icon(CircleCheck, StrokeColor(isActive)))
  {
    var iconColor := StrokeColor(isActive);
    if iconType == CircleInfoIcon then Some(Icon(CircleInfo, iconColor))
    else if iconType == FileTextIcon then Some(Icon(FileText, iconColor))
    else if iconType == CircleCheckIcon then Some(Icon(CircleCheck, iconColor))
    else None
  }

  /** Distinct known ids are drawn with distinct glyphs, whatever the flags. */
  lemma GlyphsDistinct(a: string, b: string, activeA: bool, activeB: bool)
    requires KnownIcon(a) && KnownIcon(b) && a != b
    ensures Render(a, activeA).value.glyph != Render(b, activeB).value.glyph
  {
  }

  /**
   * The colour depends on the active flag only: two known ids rendered with
   * the same flag share their stroke, and the glyph does not depend on the flag.
   */
  lemma ColourIndependentOfIcon(a: string, b: string, isActive: bool, other: bool)
    requires KnownIcon(a) && KnownIcon(b)
    ensures Render(a, isActive).value.stroke == Render(b, isActive).value.stroke
    ensures Render(a, isActive).value.glyph == Render(a, other).value.glyph
    ensures Render(a, isActive).value.stroke == Render(a, other).value.stroke <==> isActive == other
  {
  }
}
