# FAQ page: search filter, accordion state and SEO-preserving rendering

This project models the logic of the FAQ page component (`app/faq/FAQClient.tsx`).
The page holds a list of question/answer items, each in a category. It offers
a search box, a row of category buttons ("All", "General", "Services",
"Pricing", "Support") and an accordion in which at most one item is expanded.
Items that do not match the search and category are never removed from the
markup. Each one stays in the page and is only hidden. The page also shows a
"no results" placeholder when the filtered list `filteredFaqs` is empty.

The component writes the match predicate out twice: once inside
`filteredFaqs` (lines 28-35) and again for each item's visibility
(lines 82-85). The central result of the model is that the two copies agree.
So the placeholder appears exactly when no item is displayed, and the
displayed items are `filteredFaqs`, in order.

Modules:

- `Text` (text.dfy): `toLowerCase` as ASCII lower-casing, and `includes` as a
  left-to-right window scan. The scan is proved equal to substring containment.
- `FaqFilter` (faq_filter.dfy): the item record, the category list, the match
  predicate and `Filter` (`filteredFaqs`), with lemmas. `Filter` keeps order,
  keeps each matching item as many times as it occurs and nothing else, and is
  empty exactly when nothing matches.
- `FaqRender` (faq_render.dfy): the per-item computation inside `faqs.map`, with
  its own copy of the predicate (`ShouldShow`). Each item's view holds its key,
  text, visibility, `aria-expanded`, `aria-controls`, answer id and
  `aria-hidden`. The page view adds the placeholder flag. Also the worked
  examples.
- `FaqPage` (faq_page.dfy): the class `FaqClient`. It holds the three state
  fields `searchQuery`, `openIndex` and `activeCategory`, plus the three event
  handlers. Its invariant says the category is one of the buttons and the open
  index, if any, is a valid item index.
- `Optional` (option.dfy): `Option`, standing for `number | null`.

Three behaviours of the code worth stating plainly:

- The category handler (lines 66-69) closes the open item for every
  category, "All" included. `SelectCategory` does the same.
- The search test has no special case for an empty query. It relies on every
  string including `""` (`EmptyQueryMatchesSearch`).
- Initial placeholder: the initial state shows no placeholder only when the
  item list is non-empty. For an empty list the placeholder is shown.
  `InitialRender` states it that way.

## Model

| member | source | states |
|---|---|---|
| `Text.LowerChar` | app/faq/FAQClient.tsx:30-31 | lower-casing one character leaves no upper-case letter, keeps non-letters as they are, and maps 'A'..'Z' to the letter at the same alphabet position in 'a'..'z' |
| `Text.Lower` | app/faq/FAQClient.tsx:30-31 | `toLowerCase` keeps the length of the string, turns each 'A'..'Z' into its lower-case partner, keeps every other character, and leaves no upper-case letter |
| `Text.LowerIdempotent` | app/faq/FAQClient.tsx:30-31 | lower-casing an already lower-cased string changes nothing |
| `Text.Includes` | app/faq/FAQClient.tsx:30-31 | `includes`: a true answer needs the pattern to be no longer than the string, and the empty pattern is always included; `IncludesIff` proves it is exactly substring containment |
| `Text.IncludesIff` | app/faq/FAQClient.tsx:30-31 | `includes` holds exactly when the pattern occurs at some index of the string (both directions) |
| `Text.IncludesEmpty` | app/faq/FAQClient.tsx:30-31 | every string includes the empty string |
| `FaqFilter.MatchesSearch` | app/faq/FAQClient.tsx:30-31 | the search half of the filter callback; characterised by `MatchesIff` and `MatchesCaseInsensitive` |
| `FaqFilter.MatchesCategory` | app/faq/FAQClient.tsx:32 | the category half of the filter callback; characterised by `MatchesIff` |
| `FaqFilter.Matches` | app/faq/FAQClient.tsx:29-34 | the filter callback, both halves together; characterised by `MatchesIff` |
| `FaqFilter.MatchesIff` | app/faq/FAQClient.tsx:30-33 | an item matches iff the lower-cased query is a substring of the lower-cased question or of the lower-cased answer, and the category is "All" or the item's own |
| `FaqFilter.EmptyQueryMatchesSearch` | app/faq/FAQClient.tsx:30-31 | with the query "" every item passes the search test |
| `FaqFilter.MatchesIgnoresQueryCase` | app/faq/FAQClient.tsx:30-31 | lower-casing the query beforehand does not change which items match |
| `FaqFilter.MatchesCaseInsensitive` | app/faq/FAQClient.tsx:30-31 | two queries that differ only in the ASCII case of their letters match the same items |
| `FaqFilter.Filter` | app/faq/FAQClient.tsx:28-35 | `filteredFaqs` is no longer than `faqs`, and each of its items is an item of `faqs` that matches |
| `FaqFilter.FilterAppend` | app/faq/FAQClient.tsx:29-34 | filtering a concatenation gives the concatenation of the filtered parts |
| `FaqFilter.FilterIsSubsequence` | app/faq/FAQClient.tsx:28-35 | `filteredFaqs` is a subsequence of `faqs`, so it keeps the source order |
| `FaqFilter.FilterMultiplicity` | app/faq/FAQClient.tsx:28-35 | each matching item occurs in `filteredFaqs` as often as in `faqs`; a non-matching item does not occur |
| `FaqFilter.FilterEmptyIff` | app/faq/FAQClient.tsx:28-35 | `filteredFaqs` is empty exactly when no item of `faqs` matches |
| `FaqFilter.FilterKeepsAll` | app/faq/FAQClient.tsx:29-34 | when every item matches, `filteredFaqs` is all of `faqs` |
| `FaqFilter.InitialFilterKeepsAll` | app/faq/FAQClient.tsx:22-35 | with the initial query "" and category "All", `filteredFaqs` is all of `faqs` |
| `FaqRender.ShouldShow` | app/faq/FAQClient.tsx:82-85 | the per-item copy of the predicate; `ShouldShowIsMatches` proves it equal to the filter's |
| `FaqRender.RenderItem` | app/faq/FAQClient.tsx:80-121 | an item's block is displayed exactly when the item matches, is expanded exactly when its index is the open one, hides its answer exactly when not expanded, controls its own answer, and carries the item's full text |
| `FaqRender.Render` | app/faq/FAQClient.tsx:80-131 | one block per item, block `i` keyed by `i` and displayed exactly when `faqs[i]` matches, and the placeholder exactly when `filteredFaqs` is empty |
| `FaqRender.ShouldShowIsMatches` | app/faq/FAQClient.tsx:82-85 | the per-item copy of the predicate equals the filter's predicate for every item, query and category |
| `FaqRender.RenderEmitsEveryItem` | app/faq/FAQClient.tsx:80-122 | the list has one block per item whatever the query and category, in source order, keyed by index, each carrying its full question, answer and category and an answer block with its index as id |
| `FaqRender.RenderVisibility` | app/faq/FAQClient.tsx:85-92 | an item's block is displayed exactly when the item matches |
| `FaqRender.RenderAria` | app/faq/FAQClient.tsx:81-116 | `aria-expanded` is true exactly for the open index, `aria-hidden` on the answer is its negation, and the header controls its own answer |
| `FaqRender.RenderAtMostOneOpen` | app/faq/FAQClient.tsx:81 | two expanded blocks are the same block |
| `FaqRender.NoResultsIffNothingShown` | app/faq/FAQClient.tsx:124-131 | the placeholder is rendered exactly when no item block is displayed |
| `FaqRender.ShownItemsAreFilter` | app/faq/FAQClient.tsx:80-131 | the displayed blocks, in order, carry exactly the items of `filteredFaqs` |
| `FaqRender.InitialRender` | app/faq/FAQClient.tsx:22-35 | in the initial state every item is displayed and closed, and the placeholder shows only for an empty list |
| `FaqRender.ExamplePricingMatches` | app/faq/FAQClient.tsx:30-33 | the query "pricing" misses the item ("What is X?", "X is...", "General") and matches ("Pricing?", "...", "Pricing") |
| `FaqRender.ExamplePricingQuery` | app/faq/FAQClient.tsx:80-131 | on those two items the query "pricing" displays only the second, with no placeholder |
| `FaqRender.ExampleNoMatch` | app/faq/FAQClient.tsx:80-131 | on those two items the query "zzz" hides both blocks and shows the placeholder, for any category |
| `FaqRender.ExampleOpenButHidden` | app/faq/FAQClient.tsx:81-92 | an item can be expanded and hidden at once: visibility ignores the open index |
| `FaqPage.FaqClient.Valid` | app/faq/FAQClient.tsx:22-26 | the invariant: the category is one of the five buttons and the open index, if any, is a valid item index; kept by the constructor and the three handlers |
| `FaqPage.FaqClient.View` | app/faq/FAQClient.tsx:80-131 | the current render has one block per item; in a valid state the open item's block exists and is expanded, and any expanded block is the open one |
| `FaqPage.FaqClient.constructor` | app/faq/FAQClient.tsx:22-24 | the initial state is query "", nothing open and category "All", and it satisfies the invariant |
| `FaqPage.FaqClient.SetSearchQuery` | app/faq/FAQClient.tsx:49 | typing sets the query and leaves the open index and the category unchanged, keeping the invariant |
| `FaqPage.FaqClient.SelectCategory` | app/faq/FAQClient.tsx:63-69 | a category button sets the category to one from the fixed list and closes the open item, so no block is expanded, and leaves the query unchanged |
| `FaqPage.FaqClient.ToggleItem` | app/faq/FAQClient.tsx:96 | clicking item `idx` closes it if it was open and otherwise opens it. Every other item is then closed, the open index stays a valid index, and the query and category are unchanged |
| `FaqPage.ExpandedIffOpen` | app/faq/FAQClient.tsx:81-116 | in every state an item is expanded, and its answer not hidden, exactly when it is the open one |
| `FaqPage.ValidOpenItemExpanded` | app/faq/FAQClient.tsx:81-97 | in a valid state some block is expanded exactly when an item is open |
| `FaqPage.PlaceholderConsistent` | app/faq/FAQClient.tsx:124-131 | in every state the placeholder shows exactly when no item block is displayed |

## Left out

- Markup and styling: the JSX structure, the Tailwind class strings, the `lucide-react` icons and the `next/link` link. Each item's presentation is reduced to the booleans that drive it (displayed, expanded, answer hidden).
- `useMemo` caching of `filteredFaqs`. `Render` recomputes the filtered list from `(faqs, searchQuery, activeCategory)`, which is all the cache depends on.
- React's re-render scheduling and `useState` internals. Each setter is a direct field assignment. The two setters of the category handler take effect together.
- `toLowerCase` beyond ASCII. Only 'A'..'Z' are lowered. Full Unicode case mapping, which can change a string's length, is not modelled.
- A change of the `faqs` prop while the page is mounted. `faqs` is a constant of `FaqClient`. In React a shorter new list could leave `openIndex` pointing past its end, and the model does not capture that.
- The support section (contact e-mail, phone number with its whitespace-stripping regex, and the booking link). These are external configuration strings.
- The fixed "32 essential … questions" text and the imported but unused `FAQS` constant.
- The element ids are modelled as the item index (`faq-answer-${idx}` becomes `idx`). String formatting of ids is not modelled.
