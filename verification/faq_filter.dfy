/**
  The FAQ search/category predicate and the filtered list it selects
  (`filteredFaqs`).
 */
module FaqFilter {
  import opened Text

  /** One question/answer record with its category. */
  datatype FaqItem = FaqItem(question: string, answer: string, category: string)

  /** The category that lets every item through. */
  const AllCategory: string := "All"

  /** The fixed list of category buttons, in display order. */
  const Categories: seq<string> := ["All", "General", "Services", "Pricing", "Support"]

  /** The lower-cased query occurs in the lower-cased question or answer. */
  predicate MatchesSearch(faq: FaqItem, query: string) {
    Includes(Lower(faq.question), Lower(query)) || Includes(Lower(faq.answer), Lower(query))
  }

  /** The active category is "All" or the item's own category. */
  predicate MatchesCategory(faq: FaqItem, category: string) {
    category == AllCategory || faq.category == category
  }

  /** The predicate passed to `faqs.filter`. */
  predicate Matches(faq: FaqItem, query: string, category: string) {
    MatchesSearch(faq, query) && MatchesCategory(faq, category)
  }

  /** `filteredFaqs`: the items of `faqs` that match, in their original order. */
  function Filter(faqs: seq<FaqItem>, query: string, category: string): (r: seq<FaqItem>)
    ensures |r| <= |faqs|
    ensures forall x :: x in r ==> x in faqs && Matches(x, query, category)
  {
    if faqs == [] then []
    else (if Matches(faqs[0], query, category) then [faqs[0]] else []) + Filter(faqs[1..], query, category)
  }

  /** `r` is obtained from `s` by deleting some elements, keeping the rest in order. */
  ghost predicate IsSubsequence<T>(r: seq<T>, s: seq<T>)
    decreases |s|
  {
    if r == [] then true
    else if s == [] then false
    else (r[0] == s[0] && IsSubsequence(r[1..], s[1..])) || IsSubsequence(r, s[1..])
  }

  /** An item matches iff the lower-cased query occurs at some position of the
      lower-cased question or of the lower-cased answer, and the category is
      "All" or the item's own. */
  lemma MatchesIff(faq: FaqItem, query: string, category: string)
    ensures Matches(faq, query, category) <==>
      (IsSubstring(Lower(query), Lower(faq.question)) || IsSubstring(Lower(query), Lower(faq.answer))) &&
      (category == "All" || faq.category == category)
  {
    IncludesIff(Lower(faq.question), Lower(query));
    IncludesIff(Lower(faq.answer), Lower(query));
  }

  /** With an empty query every item passes the search half of the predicate,
      so the query "" filters nothing out. */
  lemma EmptyQueryMatchesSearch(faq: FaqItem)
    ensures MatchesSearch(faq, "")
  {
    IncludesEmpty(Lower(faq.question));
  }

  /** Matching ignores the case of the query. */
  lemma MatchesIgnoresQueryCase(faq: FaqItem, query: string, category: string)
    ensures Matches(faq, Lower(query), category) == Matches(faq, query, category)
  {
    LowerIdempotent(query);
  }

  /** Matching gives the same answer for any two queries that differ only
      in the case of their letters. */
  lemma MatchesCaseInsensitive(faq: FaqItem, query1: string, query2: string, category: string)
    requires EqualIgnoringCase(query1, query2)
    ensures Matches(faq, query1, category) == Matches(faq, query2, category)
  {
    LowerEqualIgnoringCase(query1, query2);
  }

  /** Filtering a concatenation filters each part. */
  lemma {:induction false} FilterAppend(a: seq<FaqItem>, b: seq<FaqItem>, query: string, category: string)
    ensures Filter(a + b, query, category) == Filter(a, query, category) + Filter(b, query, category)
  {
    if a == [] {
      assert a + b == b;
    } else {
      assert (a + b)[1..] == a[1..] + b;
      FilterAppend(a[1..], b, query, category);
    }
  }

  /** Filtering a one-item list keeps that item exactly when it matches. */
  lemma FilterSingleton(faq: FaqItem, query: string, category: string)
    ensures Filter([faq], query, category) == if Matches(faq, query, category) then [faq] else []
  {
    assert [faq][1..] == [];
  }

  /** `filteredFaqs` keeps the order of `faqs`. */
  lemma {:induction false} FilterIsSubsequence(faqs: seq<FaqItem>, query: string, category: string)
    ensures IsSubsequence(Filter(faqs, query, category), faqs)
  {
    if faqs != [] {
      var rest := Filter(faqs[1..], query, category);
      FilterIsSubsequence(faqs[1..], query, category);
      if Matches(faqs[0], query, category) {
        assert Filter(faqs, query, category) == [faqs[0]] + rest;
        assert ([faqs[0]] + rest)[1..] == rest;
      } else {
        assert Filter(faqs, query, category) == rest;
        SubsequenceDropFront(rest, faqs);
      }
    }
  }

  /** A subsequence of the tail is a subsequence of the whole. */
  lemma SubsequenceDropFront<T>(r: seq<T>, s: seq<T>)
    requires s != [] && IsSubsequence(r, s[1..])
    ensures IsSubsequence(r, s)
  {
  }

  /** `filteredFaqs` holds each matching item exactly as many times as `faqs`
      does, and nothing else. */
  lemma {:induction false} FilterMultiplicity(faqs: seq<FaqItem>, query: string, category: string, x: FaqItem)
    ensures multiset(Filter(faqs, query, category))[x] ==
      if Matches(x, query, category) then multiset(faqs)[x] else 0
  {
    if faqs != [] {
      FilterMultiplicity(faqs[1..], query, category, x);
      assert faqs == [faqs[0]] + faqs[1..];
      assert multiset(faqs) == multiset([faqs[0]]) + multiset(faqs[1..]);
    }
  }

  /** The filtered list is empty exactly when no item of `faqs` matches. */
  lemma {:induction false} FilterEmptyIff(faqs: seq<FaqItem>, query: string, category: string)
    ensures Filter(faqs, query, category) == [] <==>
      forall i :: 0 <= i < |faqs| ==> !Matches(faqs[i], query, category)
  {
    if faqs != [] {
      FilterEmptyIff(faqs[1..], query, category);
      if Filter(faqs, query, category) == [] {
        assert !Matches(faqs[0], query, category);
        forall i | 1 <= i < |faqs| ensures !Matches(faqs[i], query, category) {
          assert faqs[i] == faqs[1..][i - 1];
        }
      }
      if forall i :: 0 <= i < |faqs| ==> !Matches(faqs[i], query, category) {
        assert !Matches(faqs[0], query, category);
        forall i | 0 <= i < |faqs[1..]| ensures !Matches(faqs[1..][i], query, category) {
          assert faqs[1..][i] == faqs[i + 1];
        }
      }
    }
  }

  /** When every item matches, the filter returns the whole list. */
  lemma {:induction false} FilterKeepsAll(faqs: seq<FaqItem>, query: string, category: string)
    requires forall i :: 0 <= i < |faqs| ==> Matches(faqs[i], query, category)
    ensures Filter(faqs, query, category) == faqs
  {
    if faqs != [] {
      assert Matches(faqs[0], query, category);
      forall i | 0 <= i < |faqs[1..]| ensures Matches(faqs[1..][i], query, category) {
        assert faqs[1..][i] == faqs[i + 1];
      }
      FilterKeepsAll(faqs[1..], query, category);
      assert faqs == [faqs[0]] + faqs[1..];
    }
  }

  /** In the initial state (empty query, category "All") nothing is filtered out. */
  lemma InitialFilterKeepsAll(faqs: seq<FaqItem>)
    ensures Filter(faqs, "", AllCategory) == faqs
  {
    forall i | 0 <= i < |faqs| ensures Matches(faqs[i], "", AllCategory) {
      EmptyQueryMatchesSearch(faqs[i]);
    }
    FilterKeepsAll(faqs, "", AllCategory);
  }
}
