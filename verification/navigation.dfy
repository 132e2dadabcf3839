/** The navigation handler: scroll so that a section sits just below the fixed header. */
module Navigation {
  import opened Wrappers
  import opened Sections

  /** The gap left between the header's bottom edge and the section's top edge. */
  const HEADER_PADDING: int := 12

  /**
   * `handleNav(id)`. The target element is looked up afresh in the document,
   * whose element ids are `documentIds`; `rectTop` is its top edge relative
   * to the viewport, `scrollY` the current scroll offset and `header` the
   * header's `offsetHeight` when the header ref holds an element. The result
   * is the offset passed to `window.scrollTo`, or `None` when nothing scrolls.
   */
  function ScrollTarget(id: SectionId, documentIds: set<string>, rectTop: int, scrollY: int, header: Option<int>): (y: Option<int>)
    ensures y.None? <==> Name(id) !in documentIds
    ensures y.Some? ==> (rectTop + scrollY) - y.value == HeaderHeight(header) + HEADER_PADDING
  {
    if Name(id) !in documentIds then None
    else Some(rectTop + scrollY - HeaderHeight(header) - HEADER_PADDING)
  }

  /** Without a header element the section is placed 12 pixels below the top of the viewport. */
  lemma ScrollWithoutHeader(id: SectionId, documentIds: set<string>, rectTop: int, scrollY: int)
    requires Name(id) in documentIds
    ensures ScrollTarget(id, documentIds, rectTop, scrollY, None) == Some(rectTop + scrollY - HEADER_PADDING)
  {
  }

  /**
   * Navigating again once the scroll has arrived targets the same offset: the
   * element's top edge has moved up by the distance scrolled.
   */
  lemma ScrollTargetIdempotent(id: SectionId, documentIds: set<string>, rectTop: int, scrollY: int, header: Option<int>)
    requires Name(id) in documentIds
    ensures var y := ScrollTarget(id, documentIds, rectTop, scrollY, header).value;
      ScrollTarget(id, documentIds, rectTop - (y - scrollY), y, header) == Some(y)
  {
  }
}
