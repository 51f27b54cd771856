/**
  What the FAQ list renders for a given state: one block per item, always
  present, with its visibility and its open/closed ARIA attributes, and the
  "no results" placeholder. Presentation (class strings, icons) is reduced to
  the booleans that drive it.
 */
module FaqRender {
  import opened Text
  import opened Optional
  import opened FaqFilter

  /** The rendered block of one item: its key, the text it carries, whether
      its container is displayed, the header button's `aria-expanded` and
      `aria-controls` target, and the answer block's id and `aria-hidden`. */
  datatype ItemView = ItemView(
    key: nat,
    category: string,
    question: string,
    answer: string,
    shown: bool,
    ariaExpanded: bool,
    ariaControls: nat,
    answerId: nat,
    answerAriaHidden: bool)

  /** The whole rendered list: every item block, then the placeholder flag. */
  datatype PageView = PageView(items: seq<ItemView>, noResults: bool)

  /** The visibility test written out a second time inside the list
      rendering, independently of the filter's predicate. */
  predicate ShouldShow(faq: FaqItem, query: string, category: string) {
    var matchesSearch := Includes(Lower(faq.question), Lower(query)) ||
                         Includes(Lower(faq.answer), Lower(query));
    var matchesCategory := category == "All" || faq.category == category;
    matchesSearch && matchesCategory
  }

  /** The block rendered for item `idx`. */
  function RenderItem(faq: FaqItem, idx: nat, query: string, category: string, openIndex: Option<nat>): (r: ItemView)
    ensures r.shown == Matches(faq, query, category)
    ensures r.ariaExpanded <==> openIndex == Some(idx)
    ensures r.answerAriaHidden == !r.ariaExpanded && r.ariaControls == r.answerId
    ensures FaqItem(r.question, r.answer, r.category) == faq
  {
    var isOpen := openIndex == Some(idx);
    ItemView(idx, faq.category, faq.question, faq.answer,
             ShouldShow(faq, query, category), isOpen, idx, idx, !isOpen)
  }

  /** Every item of `faqs` rendered in source order, and the placeholder
      exactly when `filteredFaqs` is empty. */
  function Render(faqs: seq<FaqItem>, query: string, category: string, openIndex: Option<nat>): (r: PageView)
    ensures |r.items| == |faqs|
    ensures forall i :: 0 <= i < |faqs| ==> r.items[i].key == i && r.items[i].shown == Matches(faqs[i], query, category)
    ensures r.noResults <==> Filter(faqs, query, category) == []
  {
    PageView(
      seq(|faqs|, i requires 0 <= i < |faqs| => RenderItem(faqs[i], i, query, category, openIndex)),
      |Filter(faqs, query, category)| == 0)
  }

  /** The item contents of the displayed blocks, in order. */
  function ShownItems(items: seq<ItemView>): (r: seq<FaqItem>)
    ensures |r| <= |items|
  {
    if items == [] then []
    else
      var last := items[|items| - 1];
      ShownItems(items[..|items| - 1]) +
        (if last.shown then [FaqItem(last.question, last.answer, last.category)] else [])
  }

  /** The two copies of the predicate agree on every item and every state. */
  lemma ShouldShowIsMatches(faq: FaqItem, query: string, category: string)
    ensures ShouldShow(faq, query, category) == Matches(faq, query, category)
  {
  }

  /** Every item is rendered, in source order, with its full question and
      answer, whatever the query and category: as many question blocks and
      answer blocks as there are items. */
  lemma RenderEmitsEveryItem(faqs: seq<FaqItem>, query: string, category: string, openIndex: Option<nat>)
    ensures var v := Render(faqs, query, category, openIndex);
      |v.items| == |faqs| &&
      forall i :: 0 <= i < |faqs| ==>
        v.items[i].key == i && v.items[i].answerId == i &&
        FaqItem(v.items[i].question, v.items[i].answer, v.items[i].category) == faqs[i]
  {
  }

  /** Each block is displayed exactly when its item matches the filter. */
  lemma RenderVisibility(faqs: seq<FaqItem>, query: string, category: string, openIndex: Option<nat>, i: int)
    requires 0 <= i < |faqs|
    ensures Render(faqs, query, category, openIndex).items[i].shown == Matches(faqs[i], query, category)
  {
  }

  /** The header's `aria-expanded` and the answer's `aria-hidden` both mirror
      whether the item is the open one, and the header controls its own answer. */
  lemma RenderAria(faqs: seq<FaqItem>, query: string, category: string, openIndex: Option<nat>, i: int)
    requires 0 <= i < |faqs|
    ensures var it := Render(faqs, query, category, openIndex).items[i];
      it.ariaExpanded == (openIndex == Some(i)) &&
      it.answerAriaHidden == !it.ariaExpanded &&
      it.ariaControls == it.answerId
  {
  }

  /** At most one block is expanded. */
  lemma RenderAtMostOneOpen(faqs: seq<FaqItem>, query: string, category: string, openIndex: Option<nat>, i: int, j: int)
    requires 0 <= i < |faqs| && 0 <= j < |faqs|
    requires Render(faqs, query, category, openIndex).items[i].ariaExpanded
    requires Render(faqs, query, category, openIndex).items[j].ariaExpanded
    ensures i == j
  {
  }

  /** The placeholder is rendered exactly when no block is displayed. */
  lemma NoResultsIffNothingShown(faqs: seq<FaqItem>, query: string, category: string, openIndex: Option<nat>)
    ensures var v := Render(faqs, query, category, openIndex);
      v.noResults <==> forall i :: 0 <= i < |v.items| ==> !v.items[i].shown
  {
    FilterEmptyIff(faqs, query, category);
    forall i | 0 <= i < |faqs|
      ensures Render(faqs, query, category, openIndex).items[i].shown == Matches(faqs[i], query, category)
    {
      RenderVisibility(faqs, query, category, openIndex, i);
    }
  }

  /** The displayed blocks are exactly `filteredFaqs`, in the same order:
      the placeholder test and the per-item visibility select the same items. */
  lemma ShownItemsAreFilter(faqs: seq<FaqItem>, query: string, category: string, openIndex: Option<nat>)
    ensures ShownItems(Render(faqs, query, category, openIndex).items) == Filter(faqs, query, category)
  {
    var items := Render(faqs, query, category, openIndex).items;
    ShownPrefixIsFilter(faqs, query, category, openIndex, |faqs|);
    assert items[..|faqs|] == items;
    assert faqs[..|faqs|] == faqs;
  }

  /** The first `k` rendered blocks display the filter of the first `k` items. */
  lemma {:induction false} ShownPrefixIsFilter(faqs: seq<FaqItem>, query: string, category: string, openIndex: Option<nat>, k: nat)
    requires k <= |faqs|
    ensures ShownItems(Render(faqs, query, category, openIndex).items[..k]) == Filter(faqs[..k], query, category)
  {
    var items := Render(faqs, query, category, openIndex).items;
    if k == 0 {
      assert items[..0] == [];
      assert faqs[..0] == [];
    } else {
      ShownPrefixIsFilter(faqs, query, category, openIndex, k - 1);
      var last := items[k - 1];
      assert last.shown == Matches(faqs[k - 1], query, category) by {
        RenderVisibility(faqs, query, category, openIndex, k - 1);
      }
      assert FaqItem(last.question, last.answer, last.category) == faqs[k - 1];
      assert items[..k][..k - 1] == items[..k - 1];
      assert faqs[..k] == faqs[..k - 1] + [faqs[k - 1]];
      FilterAppend(faqs[..k - 1], [faqs[k - 1]], query, category);
      FilterSingleton(faqs[k - 1], query, category);
    }
  }

  /** The initial state (empty query, category "All", nothing open) shows
      every item, all closed, and the placeholder only for an empty list. */
  lemma InitialRender(faqs: seq<FaqItem>)
    ensures var v := Render(faqs, "", AllCategory, None);
      (forall i :: 0 <= i < |v.items| ==> v.items[i].shown && !v.items[i].ariaExpanded) &&
      (v.noResults <==> faqs == [])
  {
    InitialFilterKeepsAll(faqs);
    forall i | 0 <= i < |faqs| ensures Matches(faqs[i], "", AllCategory) {
      EmptyQueryMatchesSearch(faqs[i]);
    }
  }

  /** A non-empty query whose first character is in neither the lower-cased
      question nor the lower-cased answer matches nothing. */
  lemma MissingFirstCharNoMatch(faq: FaqItem, query: string, category: string)
    requires |query| > 0
    requires Lower(query)[0] !in Lower(faq.question) && Lower(query)[0] !in Lower(faq.answer)
    ensures !Matches(faq, query, category)
  {
    if Includes(Lower(faq.question), Lower(query)) {
      IncludesFirstChar(Lower(faq.question), Lower(query));
    }
    if Includes(Lower(faq.answer), Lower(query)) {
      IncludesFirstChar(Lower(faq.answer), Lower(query));
    }
  }

  /** The two items of the worked examples. */
  const ExampleGeneral: FaqItem := FaqItem("What is X?", "X is...", "General")
  const ExamplePricing: FaqItem := FaqItem("Pricing?", "...", "Pricing")

  /** Neither example item contains the letter 'z' in any case. */
  lemma ExampleItemsLackZ()
    ensures 'z' !in Lower(ExampleGeneral.question) && 'z' !in Lower(ExampleGeneral.answer)
    ensures 'z' !in Lower(ExamplePricing.question) && 'z' !in Lower(ExamplePricing.answer)
  {
    LowerMissingLetter(ExampleGeneral.question, 'z', 'Z');
    LowerMissingLetter(ExampleGeneral.answer, 'z', 'Z');
    LowerMissingLetter(ExamplePricing.question, 'z', 'Z');
    LowerMissingLetter(ExamplePricing.answer, 'z', 'Z');
  }

  /** The "General" example item contains no 'p' in any case. */
  lemma ExampleGeneralLacksP()
    ensures 'p' !in Lower(ExampleGeneral.question) && 'p' !in Lower(ExampleGeneral.answer)
  {
    LowerMissingLetter(ExampleGeneral.question, 'p', 'P');
    LowerMissingLetter(ExampleGeneral.answer, 'p', 'P');
  }

  /** "pricing" is absent from the "General" item and begins the "Pricing" one. */
  lemma ExamplePricingMatches()
    ensures !Matches(ExampleGeneral, "pricing", AllCategory)
    ensures Matches(ExamplePricing, "pricing", AllCategory)
  {
    assert Lower("pricing") == "pricing";
    ExampleGeneralLacksP();
    MissingFirstCharNoMatch(ExampleGeneral, "pricing", AllCategory);
    assert Lower(ExamplePricing.question)[..7] == "pricing";
    IncludesPrefix(Lower(ExamplePricing.question), Lower("pricing"));
  }

  /** The query "pricing" on a "General" item and a "Pricing" item shows
      only the second and no placeholder. */
  lemma ExamplePricingQuery()
    ensures var v := Render([ExampleGeneral, ExamplePricing], "pricing", AllCategory, None);
      !v.items[0].shown && v.items[1].shown && !v.noResults
  {
    var faqs := [ExampleGeneral, ExamplePricing];
    ExamplePricingMatches();
    RenderVisibility(faqs, "pricing", AllCategory, None, 0);
    RenderVisibility(faqs, "pricing", AllCategory, None, 1);
    NoResultsIffNothingShown(faqs, "pricing", AllCategory, None);
  }

  /** The query "zzz" matches neither item, whatever the category: every
      block is hidden and the placeholder is shown. */
  lemma ExampleNoMatch(category: string)
    ensures var v := Render([ExampleGeneral, ExamplePricing], "zzz", category, None);
      !v.items[0].shown && !v.items[1].shown && v.noResults
  {
    var faqs := [ExampleGeneral, ExamplePricing];
    assert Lower("zzz") == "zzz";
    ExampleItemsLackZ();
    MissingFirstCharNoMatch(ExampleGeneral, "zzz", category);
    MissingFirstCharNoMatch(ExamplePricing, "zzz", category);
    RenderVisibility(faqs, "zzz", category, None, 0);
    RenderVisibility(faqs, "zzz", category, None, 1);
    NoResultsIffNothingShown(faqs, "zzz", category, None);
  }

  /** Visibility does not depend on which item is open: an item can be open
      and hidden at once (open it, then type a query it does not match). */
  lemma ExampleOpenButHidden()
    ensures var v := Render([FaqItem("Q", "A", "General")], "zzz", AllCategory, Some(0));
      v.items[0].ariaExpanded && !v.items[0].shown
  {
    var faq := FaqItem("Q", "A", "General");
    assert Lower("zzz")[0] == 'z';
    assert 'z' !in Lower(faq.question);
    assert 'z' !in Lower(faq.answer);
    MissingFirstCharNoMatch(faq, "zzz", AllCategory);
    RenderVisibility([faq], "zzz", AllCategory, Some(0), 0);
  }
}
