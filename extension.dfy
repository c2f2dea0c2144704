/**
 * The content script and the background script together: the icon a tab
 * shows after the background script has handled that tab's classification.
 */
module Extension {
  import opened Wrappers
  import opened Content
  import opened Background

  /**
   * After a check of `page` in tab `tab` (any id but 0) reaches the
   * background script, the tab is blue exactly when the page declares an
   * alternate Markdown link, green exactly when it declares none but has a
   * candidate anchor, and gray exactly when it has neither.
   */
  lemma IconReflectsPage(icons: map<int, string>, page: Page, tab: int)
    requires tab != 0
    ensures tab in IconUpdate(icons, Delivery(Classify(page), Some(tab)))
    ensures IconUpdate(icons, Delivery(Classify(page), Some(tab)))[tab] == BLUE_ICON <==>
      page.alternateHref.Some?
    ensures IconUpdate(icons, Delivery(Classify(page), Some(tab)))[tab] == GREEN_ICON <==>
      page.alternateHref.None? && HasCandidate(page.anchors)
    ensures IconUpdate(icons, Delivery(Classify(page), Some(tab)))[tab] == GRAY_ICON <==>
      page.alternateHref.None? && !HasCandidate(page.anchors)
  {
    ClassifyTag(page);
  }
}
