/**
  The FAQ page's interaction state: the search text, the open item and the
  active category, and the three event handlers that change them.
 */
module FaqPage {
  import opened Optional
  import opened FaqFilter
  import opened FaqRender

  class FaqClient {
    /** The items passed in by the caller; the page never changes them. */
    const faqs: seq<FaqItem>
    /** The text of the search box. */
    var searchQuery: string
    /** The index of the expanded item, or none. */
    var openIndex: Option<nat>
    /** The selected category button. */
    var activeCategory: string

    /** The open item, if any, is one of the items, and the active category
        is one of the buttons. */
    ghost predicate Valid()
      reads this
    {
      activeCategory in Categories &&
      (openIndex.Some? ==> openIndex.value < |faqs|)
    }

    /** What the page renders in its current state. In a valid state the
        open item, if any, has a block and that block is the only expanded one. */
    function View(): (r: PageView)
      reads this
      ensures |r.items| == |faqs|
      ensures Valid() && openIndex.Some? ==>
        openIndex.value < |r.items| && r.items[openIndex.value].ariaExpanded
      ensures forall i :: 0 <= i < |r.items| && r.items[i].ariaExpanded ==> openIndex == Some(i)
    {
      Render(faqs, searchQuery, activeCategory, openIndex)
    }

    /** The initial state: empty query, nothing open, category "All". */
    constructor (faqs: seq<FaqItem>)
      ensures Valid()
      ensures this.faqs == faqs
      ensures searchQuery == "" && openIndex == None && activeCategory == AllCategory
    {
      this.faqs := faqs;
      searchQuery := "";
      openIndex := None;
      activeCategory := AllCategory;
    }

    /** Typing in the search box replaces the query and nothing else; an open
        item stays open even if the new query hides it. */
    method SetSearchQuery(value: string)
      requires Valid()
      modifies this
      ensures Valid()
      ensures searchQuery == value
      ensures openIndex == old(openIndex) && activeCategory == old(activeCategory)
    {
      searchQuery := value;
    }

    /** Clicking a category button selects it and closes any open item. */
    method SelectCategory(cat: string)
      requires Valid()
      requires cat in Categories
      modifies this
      ensures Valid()
      ensures activeCategory == cat && openIndex == None
      ensures searchQuery == old(searchQuery)
      ensures forall i :: 0 <= i < |faqs| ==> !View().items[i].ariaExpanded
    {
      activeCategory := cat;
      openIndex := None;
    }

    /** Clicking item `idx`'s header closes it if it is the open one and
        otherwise opens it, closing whichever item was open before. */
    method ToggleItem(idx: nat)
      requires Valid()
      requires idx < |faqs|
      modifies this
      ensures Valid()
      ensures openIndex == if old(openIndex) == Some(idx) then None else Some(idx)
      ensures searchQuery == old(searchQuery) && activeCategory == old(activeCategory)
      ensures View().items[idx].ariaExpanded == (old(openIndex) != Some(idx))
      ensures forall j :: 0 <= j < |faqs| && j != idx ==> !View().items[j].ariaExpanded
    {
      var isOpen := openIndex == Some(idx);
      openIndex := if isOpen then None else Some(idx);
    }
  }

  /** In every state, an item is expanded exactly when it is the open one,
      so zero or one item is expanded. */
  lemma ExpandedIffOpen(page: FaqClient, i: int)
    requires 0 <= i < |page.faqs|
    ensures page.View().items[i].ariaExpanded <==> page.openIndex == Some(i)
    ensures page.View().items[i].answerAriaHidden <==> page.openIndex != Some(i)
  {
  }

  /** In a valid state exactly one block is expanded when an item is open,
      and none when no item is open. */
  lemma ValidOpenItemExpanded(page: FaqClient)
    requires page.Valid()
    ensures page.openIndex.Some? <==>
      exists i :: 0 <= i < |page.faqs| && page.View().items[i].ariaExpanded
  {
    if page.openIndex.Some? {
      assert page.View().items[page.openIndex.value].ariaExpanded;
    }
  }

  /** In every state, the placeholder shows exactly when no item is
      displayed. */
  lemma PlaceholderConsistent(page: FaqClient)
    ensures page.View().noResults <==>
      forall i :: 0 <= i < |page.faqs| ==> !page.View().items[i].shown
  {
    NoResultsIffNothingShown(page.faqs, page.searchQuery, page.activeCategory, page.openIndex);
  }

  /** A run of the accordion: open one item, open another (the first
      closes), click it again (all closed), then pick a category. */
  method AccordionScenario(faqs: seq<FaqItem>)
    requires |faqs| >= 2
  {
    var page := new FaqClient(faqs);
    assert page.View().noResults == false by {
      InitialRender(faqs);
    }
    page.ToggleItem(0);
    assert page.openIndex == Some(0);
    page.ToggleItem(1);
    assert page.openIndex == Some(1) && !page.View().items[0].ariaExpanded;
    page.ToggleItem(1);
    assert page.openIndex == None;
    page.ToggleItem(0);
    page.SelectCategory("Pricing");
    assert page.openIndex == None && page.activeCategory == "Pricing";
  }
}
