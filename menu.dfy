/**
 * The menu page's search-and-filter rule (src/pages/Menu.tsx). The page keeps
 * a selected category and a search term; the dishes it shows are the menu
 * items, in their original order, whose category matches the selection (or
 * the selection is the sentinel "All") and whose lower-cased name or
 * lower-cased description contains the lower-cased search term. When no
 * dish passes, the page shows a "No dishes found" message instead.
 */
module Menu {
  import opened Ascii
  import opened Substring

  /** A mock menu item without its price and rating. */
  datatype MenuItem = MenuItem(
    id: string,
    name: string,
    description: string,
    category: string,
    isVegetarian: bool,
    isSpicy: bool)

  /** The category button that disables category filtering. */
  const All: string := "All"

  /** The category buttons, in display order. */
  const Categories: seq<string> := [All, "Appetizer", "Main Course", "Dessert"]

  /** The category test: the sentinel lets everything through, any other selection only its own category. */
  predicate MatchesCategory(item: MenuItem, selectedCategory: string)
  {
    selectedCategory == All || item.category == selectedCategory
  }

  /** The search test: the folded term occurs in the folded name or the folded description. */
  predicate MatchesSearch(item: MenuItem, searchTerm: string)
    ensures searchTerm == "" ==> MatchesSearch(item, searchTerm)
    ensures MatchesSearch(item, searchTerm) ==> |searchTerm| <= |item.name| || |searchTerm| <= |item.description|
  {
    Contains(ToLower(item.name), ToLower(searchTerm))
    || Contains(ToLower(item.description), ToLower(searchTerm))
  }

  /** The predicate handed to `Array.filter`. */
  predicate Matches(item: MenuItem, selectedCategory: string, searchTerm: string)
    ensures selectedCategory == All && searchTerm == "" ==> Matches(item, selectedCategory, searchTerm)
    ensures Matches(item, selectedCategory, searchTerm) && selectedCategory != All ==> item.category == selectedCategory
    ensures Matches(item, selectedCategory, searchTerm) ==> |searchTerm| <= |item.name| || |searchTerm| <= |item.description|
  {
    MatchesCategory(item, selectedCategory) && MatchesSearch(item, searchTerm)
  }

  /**
   * The dishes shown. An item is in the result exactly when it is in the
   * input and passes both tests (soundness and completeness), and the
   * result is never longer than the input.
   */
  function Filter(items: seq<MenuItem>, selectedCategory: string, searchTerm: string): (r: seq<MenuItem>)
    ensures |r| <= |items|
    ensures forall x :: x in r <==> x in items && Matches(x, selectedCategory, searchTerm)
  {
    if items == [] then []
    else if Matches(items[0], selectedCategory, searchTerm) then
      [items[0]] + Filter(items[1..], selectedCategory, searchTerm)
    else Filter(items[1..], selectedCategory, searchTerm)
  }

  /** `a` is `b` with some elements deleted: the order is kept and nothing is added or repeated. */
  predicate IsSubsequence<T(==)>(a: seq<T>, b: seq<T>)
    decreases |b|
  {
    if a == [] then true
    else if b == [] then false
    else (a[0] == b[0] && IsSubsequence(a[1..], b[1..])) || IsSubsequence(a, b[1..])
  }

  lemma {:induction false} SubsequenceMultiset<T>(a: seq<T>, b: seq<T>)
    requires IsSubsequence(a, b)
    ensures multiset(a) <= multiset(b)
    decreases |b|
  {
    if a != [] {
      assert b == [b[0]] + b[1..];
      if a[0] == b[0] && IsSubsequence(a[1..], b[1..]) {
        assert a == [a[0]] + a[1..];
        SubsequenceMultiset(a[1..], b[1..]);
      } else {
        SubsequenceMultiset(a, b[1..]);
      }
    }
  }

  /** The result keeps the items' relative order and neither invents nor duplicates an item. */
  lemma {:induction false} FilterIsSubsequence(items: seq<MenuItem>, selectedCategory: string, searchTerm: string)
    ensures IsSubsequence(Filter(items, selectedCategory, searchTerm), items)
    ensures multiset(Filter(items, selectedCategory, searchTerm)) <= multiset(items)
  {
    var r := Filter(items, selectedCategory, searchTerm);
    if items != [] {
      FilterIsSubsequence(items[1..], selectedCategory, searchTerm);
      var rest := Filter(items[1..], selectedCategory, searchTerm);
      if Matches(items[0], selectedCategory, searchTerm) {
        assert r[0] == items[0] && r[1..] == rest;
      } else if r != [] {
        assert r == rest;
      }
    }
    SubsequenceMultiset(r, items);
  }

  /** Each passing item appears as often as in the input, each failing one not at all. */
  lemma {:induction false} FilterCounts(items: seq<MenuItem>, selectedCategory: string, searchTerm: string, x: MenuItem)
    ensures multiset(Filter(items, selectedCategory, searchTerm))[x]
            == if Matches(x, selectedCategory, searchTerm) then multiset(items)[x] else 0
  {
    if items != [] {
      FilterCounts(items[1..], selectedCategory, searchTerm, x);
      assert items == [items[0]] + items[1..];
      if Matches(items[0], selectedCategory, searchTerm) {
        assert Filter(items, selectedCategory, searchTerm)
               == [items[0]] + Filter(items[1..], selectedCategory, searchTerm);
      }
    }
  }

  /**
   * Filter is the only subsequence of the input made of passing items that
   * keeps every passing item as often as the input has it.
   */
  lemma {:induction false} FilterUnique(items: seq<MenuItem>, selectedCategory: string, searchTerm: string, r: seq<MenuItem>)
    requires IsSubsequence(r, items)
    requires forall x :: x in r ==> Matches(x, selectedCategory, searchTerm)
    requires forall x :: Matches(x, selectedCategory, searchTerm) ==> multiset(r)[x] == multiset(items)[x]
    ensures r == Filter(items, selectedCategory, searchTerm)
    decreases |items|
  {
    if items == [] {
      assert r == [];
    } else {
      var h, t := items[0], items[1..];
      assert items == [h] + t;
      if Matches(h, selectedCategory, searchTerm) {
        assert multiset(r)[h] == multiset(t)[h] + 1;
        if r != [] && r[0] == h && IsSubsequence(r[1..], t) {
          assert r == [h] + r[1..];
          forall x | Matches(x, selectedCategory, searchTerm)
            ensures multiset(r[1..])[x] == multiset(t)[x]
          {
            assert multiset(r)[x] == multiset(r[1..])[x] + (if x == h then 1 else 0);
          }
          FilterUnique(t, selectedCategory, searchTerm, r[1..]);
        } else {
          SubsequenceMultiset(r, t);
          assert false;
        }
      } else {
        if r != [] {
          assert r[0] in r;
          assert r[0] != h;
        }
        assert IsSubsequence(r, t);
        FilterUnique(t, selectedCategory, searchTerm, r);
      }
    }
  }

  /** Filtering the shown dishes again with the same selection changes nothing. */
  lemma {:induction false} FilterIdempotent(items: seq<MenuItem>, selectedCategory: string, searchTerm: string)
    ensures Filter(Filter(items, selectedCategory, searchTerm), selectedCategory, searchTerm)
            == Filter(items, selectedCategory, searchTerm)
  {
    if items != [] {
      FilterIdempotent(items[1..], selectedCategory, searchTerm);
      if Matches(items[0], selectedCategory, searchTerm) {
        var r := Filter(items, selectedCategory, searchTerm);
        assert r[0] == items[0] && r[1..] == Filter(items[1..], selectedCategory, searchTerm);
      }
    }
  }

  /** Every item passes the empty search term under "All", so nothing is removed. */
  lemma {:induction false} FilterAllEmptyIsIdentity(items: seq<MenuItem>)
    ensures Filter(items, All, "") == items
  {
    if items != [] {
      ContainsEmpty(ToLower(items[0].name));
      FilterAllEmptyIsIdentity(items[1..]);
    }
  }

  /** Only the folded search term matters: case variants of a term show the same dishes. */
  lemma {:induction false} SearchCaseInsensitive(items: seq<MenuItem>, selectedCategory: string, term1: string, term2: string)
    requires SameUpToCase(term1, term2)
    ensures Filter(items, selectedCategory, term1) == Filter(items, selectedCategory, term2)
  {
    SameUpToCaseIffSameLower(term1, term2);
    if items != [] {
      SearchCaseInsensitive(items[1..], selectedCategory, term1, term2);
    }
  }

  /**
   * Typing more characters before or after the search term never brings a
   * dish back: a term whose folded form contains the folded old term shows
   * a subset of the dishes. (Typing inside the old term can bring one back.)
   */
  lemma SearchNarrows(items: seq<MenuItem>, selectedCategory: string, term: string, longer: string)
    requires Contains(ToLower(longer), ToLower(term))
    ensures forall x :: x in Filter(items, selectedCategory, longer) ==> x in Filter(items, selectedCategory, term)
  {
    forall x | x in Filter(items, selectedCategory, longer)
      ensures x in Filter(items, selectedCategory, term)
    {
      if Contains(ToLower(x.name), ToLower(longer)) {
        ContainsTransitive(ToLower(x.name), ToLower(longer), ToLower(term));
      } else {
        ContainsTransitive(ToLower(x.description), ToLower(longer), ToLower(term));
      }
    }
  }

  /** In particular, appending characters after the search term never brings a dish back. */
  lemma SearchAppendNarrows(items: seq<MenuItem>, selectedCategory: string, term: string, longer: string)
    requires term <= longer
    ensures forall x :: x in Filter(items, selectedCategory, longer) ==> x in Filter(items, selectedCategory, term)
  {
    ToLowerPrefix(term, longer);
    SearchNarrows(items, selectedCategory, term, longer);
  }

  // ---------------------------------------------------------------------
  // The page's state: the two `useState` values and their setters.

  datatype MenuState = MenuState(selectedCategory: string, searchTerm: string)

  /** The state the page starts in: the "All" button highlighted and an empty search box. */
  function Initial(): (s: MenuState)
    ensures IsHighlighted(s, All) && s.searchTerm == ""
  {
    MenuState(All, "")
  }

  /** Clicking a category button: that button becomes the highlighted one and the search term stays. */
  function SelectCategory(s: MenuState, category: string): (r: MenuState)
    ensures IsHighlighted(r, category)
    ensures r.searchTerm == s.searchTerm
  {
    s.(selectedCategory := category)
  }

  /** Typing into the search box: the term is replaced and the selected category stays. */
  function SetSearchTerm(s: MenuState, term: string): (r: MenuState)
    ensures r.searchTerm == term
    ensures r.selectedCategory == s.selectedCategory
  {
    s.(searchTerm := term)
  }

  /** The dishes rendered in the grid: menu items that pass both tests of the current state. */
  function Shown(s: MenuState, items: seq<MenuItem>): (r: seq<MenuItem>)
    ensures |r| <= |items|
    ensures forall x :: x in r <==> x in items && Matches(x, s.selectedCategory, s.searchTerm)
  {
    Filter(items, s.selectedCategory, s.searchTerm)
  }

  /** The "No dishes found" message is rendered. */
  predicate ShowsNoResults(s: MenuState, items: seq<MenuItem>)
    ensures items == [] ==> ShowsNoResults(s, items)
    ensures ShowsNoResults(s, items) ==> forall x :: x in items ==> !Matches(x, s.selectedCategory, s.searchTerm)
  {
    |Shown(s, items)| == 0
  }

  /** The button for `category` is drawn in the highlighted variant. */
  predicate IsHighlighted(s: MenuState, category: string)
  {
    s.selectedCategory == category
  }

  /** The selected category is one of the buttons, as it is when only the buttons set it. */
  predicate Reachable(s: MenuState) {
    s.selectedCategory in Categories
  }

  /** The initial page shows every item. */
  lemma InitialShowsEverything(items: seq<MenuItem>)
    ensures Shown(Initial(), items) == items
    ensures ShowsNoResults(Initial(), items) <==> items == []
  {
    FilterAllEmptyIsIdentity(items);
  }

  /** The message appears exactly when no item passes both tests. */
  lemma NoResultsIff(s: MenuState, items: seq<MenuItem>)
    ensures ShowsNoResults(s, items)
            <==> forall x :: x in items ==> !Matches(x, s.selectedCategory, s.searchTerm)
  {
    var r := Shown(s, items);
    if r != [] {
      assert r[0] in r;
    }
  }

  /**
   * The two `useState` hooks are independent: the initial state and both
   * setters, fed from the buttons and the search box, stay reachable; a
   * button click keeps the search term and typing keeps the category.
   */
  lemma HandlersPreserveReachable(s: MenuState, i: int, term: string)
    requires Reachable(s) && 0 <= i < |Categories|
    ensures Reachable(Initial())
    ensures Reachable(SelectCategory(s, Categories[i]))
    ensures SelectCategory(s, Categories[i]).searchTerm == s.searchTerm
    ensures Reachable(SetSearchTerm(s, term))
    ensures SetSearchTerm(s, term).selectedCategory == s.selectedCategory
  {
  }

  /** In a reachable state exactly one category button is highlighted. */
  lemma ExactlyOneHighlighted(s: MenuState)
    requires Reachable(s)
    ensures exists i :: 0 <= i < |Categories| && IsHighlighted(s, Categories[i])
    ensures forall i, j ::
              0 <= i < |Categories| && 0 <= j < |Categories| &&
              IsHighlighted(s, Categories[i]) && IsHighlighted(s, Categories[j])
              ==> i == j
  {
    forall i, j | 0 <= i < j < |Categories|
      ensures Categories[i] != Categories[j]
    {
      assert |Categories[i]| != |Categories[j]|;
    }
  }

  // ---------------------------------------------------------------------
  // The catalogue the page filters (prices and ratings left out).

  const Catalogue: seq<MenuItem> := [
    MenuItem("1", "Grilled Salmon",
      "Fresh Atlantic salmon grilled to perfection with herbs and lemon", "Main Course", false, false),
    MenuItem("2", "Truffle Risotto",
      "Creamy arborio rice with black truffle and parmesan cheese", "Main Course", true, false),
    MenuItem("3", "Spicy Shrimp Pasta",
      "Linguine with spicy shrimp in a rich tomato and garlic sauce", "Main Course", false, true),
    MenuItem("4", "Caesar Salad",
      "Crisp romaine lettuce with classic Caesar dressing and croutons", "Appetizer", true, false),
    MenuItem("5", "Chocolate Lava Cake",
      "Warm chocolate cake with molten center, served with vanilla ice cream", "Dessert", true, false),
    MenuItem("6", "Beef Tenderloin",
      "Prime beef tenderloin cooked to your preference with seasonal vegetables", "Main Course", false, false)
  ]

  /** The items of one category, in order: what the category buttons alone would show. */
  function InCategory(items: seq<MenuItem>, category: string): seq<MenuItem> {
    if items == [] then []
    else if items[0].category == category then [items[0]] + InCategory(items[1..], category)
    else InCategory(items[1..], category)
  }

  /** With an empty search term a category button shows exactly that category's items. */
  lemma {:induction false} EmptySearchIsCategoryFilter(items: seq<MenuItem>, category: string)
    requires category != All
    ensures Filter(items, category, "") == InCategory(items, category)
  {
    if items != [] {
      ContainsEmpty(ToLower(items[0].name));
      EmptySearchIsCategoryFilter(items[1..], category);
    }
  }

  /** No item of the category: the category alone shows nothing. */
  lemma {:induction false} InCategoryNone(items: seq<MenuItem>, category: string)
    requires forall j :: 0 <= j < |items| ==> items[j].category != category
    ensures InCategory(items, category) == []
  {
    if items != [] {
      InCategoryNone(items[1..], category);
    }
  }

  /** Exactly one item of the category: the category alone shows that item. */
  lemma {:induction false} InCategoryOnly(items: seq<MenuItem>, category: string, k: int)
    requires 0 <= k < |items|
    requires forall j :: 0 <= j < |items| ==> (items[j].category == category <==> j == k)
    ensures InCategory(items, category) == [items[k]]
  {
    if k == 0 {
      InCategoryNone(items[1..], category);
    } else {
      InCategoryOnly(items[1..], category, k - 1);
    }
  }

  /** A category button with an empty search shows the one item of that category. */
  lemma EmptySearchShowsOnly(items: seq<MenuItem>, category: string, k: int)
    requires category != All && 0 <= k < |items|
    requires forall j :: 0 <= j < |items| ==> (items[j].category == category <==> j == k)
    ensures Filter(items, category, "") == [items[k]]
  {
    EmptySearchIsCategoryFilter(items, category);
    InCategoryOnly(items, category, k);
  }

  /** With an empty search, the "Appetizer" button shows the salad alone. */
  lemma CatalogueAppetizers()
    ensures Filter(Catalogue, "Appetizer", "") == [Catalogue[3]]
  {
    EmptySearchShowsOnly(Catalogue, "Appetizer", 3);
  }

  /** With an empty search, the "Dessert" button shows the lava cake alone. */
  lemma CatalogueDesserts()
    ensures Filter(Catalogue, "Dessert", "") == [Catalogue[4]]
  {
    EmptySearchShowsOnly(Catalogue, "Dessert", 4);
  }

  /** The category filter distributes over concatenation. */
  lemma {:induction false} InCategoryAppend(a: seq<MenuItem>, b: seq<MenuItem>, category: string)
    ensures InCategory(a + b, category) == InCategory(a, category) + InCategory(b, category)
  {
    if a == [] {
      assert a + b == b;
    } else {
      assert (a + b)[0] == a[0] && (a + b)[1..] == a[1..] + b;
      InCategoryAppend(a[1..], b, category);
    }
  }

  /** Every item of the category: the category alone shows them all. */
  lemma {:induction false} InCategoryEvery(items: seq<MenuItem>, category: string)
    requires forall j :: 0 <= j < |items| ==> items[j].category == category
    ensures InCategory(items, category) == items
  {
    if items != [] {
      InCategoryEvery(items[1..], category);
    }
  }

  /**
   * The items before `lo` and from `hi` on have the category and those in
   * between do not: the category alone shows the two outer runs.
   */
  lemma InCategoryGap(items: seq<MenuItem>, category: string, lo: int, hi: int)
    requires 0 <= lo <= hi <= |items|
    requires forall j :: 0 <= j < |items| ==> (items[j].category == category <==> !(lo <= j < hi))
    ensures InCategory(items, category) == items[..lo] + items[hi..]
  {
    var front, gap, back := items[..lo], items[lo..hi], items[hi..];
    assert items == front + gap + back;
    InCategoryEvery(front, category);
    InCategoryNone(gap, category);
    InCategoryEvery(back, category);
    InCategoryAppend(front, gap, category);
    InCategoryAppend(front + gap, back, category);
  }

  /** The same picture after the search box: an empty search under that category shows the two outer runs. */
  lemma EmptySearchShowsGap(items: seq<MenuItem>, category: string, lo: int, hi: int)
    requires category != All && 0 <= lo <= hi <= |items|
    requires forall j :: 0 <= j < |items| ==> (items[j].category == category <==> !(lo <= j < hi))
    ensures Filter(items, category, "") == items[..lo] + items[hi..]
  {
    EmptySearchIsCategoryFilter(items, category);
    InCategoryGap(items, category, lo, hi);
  }

  /** Dropping positions 3 and 4 of a six-item list. */
  lemma DropTwoOfSix(items: seq<MenuItem>)
    requires |items| == 6
    ensures items[..3] + items[5..] == [items[0], items[1], items[2], items[5]]
  {
  }

  /** With an empty search, the "Main Course" button shows the four main courses in menu order. */
  lemma CatalogueMainCourses()
    ensures Filter(Catalogue, "Main Course", "") == [Catalogue[0], Catalogue[1], Catalogue[2], Catalogue[5]]
  {
    EmptySearchShowsGap(Catalogue, "Main Course", 3, 5);
    DropTwoOfSix(Catalogue);
  }

  /** A dish named "Grilled Salmon" passes the search for "SALMON": case is ignored. */
  lemma SalmonMatchesUpperCase(x: MenuItem)
    requires x.name == "Grilled Salmon"
    ensures MatchesSearch(x, "SALMON")
  {
    var term := "SALMON";
    assert x.name[8..14] == "Salmon";
    assert SameUpToCase(term, x.name[8..14]);
    SameUpToCaseIffSameLower(term, x.name[8..14]);
    ToLowerSlice(x.name, 8, 14);
    assert OccursAt(ToLower(x.name), ToLower(term), 8);
    ContainsIffOccurs(ToLower(x.name), ToLower(term));
  }

  /** Searching for "SALMON" under "All" shows the grilled salmon. */
  lemma CatalogueSearchSalmon()
    ensures Catalogue[0] in Filter(Catalogue, All, "SALMON")
  {
    SalmonMatchesUpperCase(Catalogue[0]);
  }
}
