# Menu search and filter

A Dafny model of the menu page of the restaurant storefront
(`src/pages/Menu.tsx`). The page holds two pieces of state, the selected
category and the search term. It shows the menu items, in menu order, that
pass two tests:

- the item's category equals the selected one, or the selection is the
  sentinel `"All"`;
- the lower-cased search term is a substring of the item's lower-cased name
  or of its lower-cased description.

When no item passes, the page shows a "No dishes found" message. The page
starts on `"All"` with an empty search term, so it first shows every item.

Files:

- `ascii.dfy`, module `Ascii`: ASCII case folding (`LowerChar`, `ToLower`)
  and the "same text up to case" relation.
- `substring.dfy`, module `Substring`: the substring search `Contains`,
  which does what `String.prototype.includes` does. It is checked against
  the positional reference definition `OccursAt`.
- `menu.dfy`, module `Menu`: the item record, the predicate passed to
  `Array.filter` (`MatchesCategory`, `MatchesSearch`, `Matches`), the
  recursive `Filter`, the page state as a value with its two setters, and the
  six-dish mock catalogue with the results of its category buttons.

Data definitions in `menu.dfy` that have no contract of their own:

- `MenuItem` is one entry of the mock array at src/pages/Menu.tsx:9-70,
  without its price and rating.
- `Catalogue` transcribes that array, src/pages/Menu.tsx:9-70.
- `Categories` is the button list at src/pages/Menu.tsx:72, and `All` is its
  first entry, the sentinel tested at src/pages/Menu.tsx:79.
- `MenuState` holds the two `useState` values of src/pages/Menu.tsx:75-76.
- `MatchesCategory` is the category test of src/pages/Menu.tsx:79, word for
  word; what it guarantees is stated by `Matches` and `Filter` below.
- `IsHighlighted` is the button-variant test of src/pages/Menu.tsx:118; what
  it guarantees is stated by `ExactlyOneHighlighted` below.

## Model

| member | source | states |
|---|---|---|
| `Ascii.LowerChar` | src/pages/Menu.tsx:80-81 | the folded character is never an upper-case letter; it differs from the input exactly when the input is an upper-case letter, which then maps to the matching lower-case letter |
| `Ascii.ToLower` | src/pages/Menu.tsx:80-81 | lower-casing keeps the length and folds every position on its own |
| `Ascii.SameLetterIffSameLower` | src/pages/Menu.tsx:80-81 | two characters lower-case to the same character exactly when they are equal or are the upper- and lower-case forms of one ASCII letter (defined without the folding) |
| `Ascii.SameUpToCaseIffSameLower` | src/pages/Menu.tsx:80-81 | two strings lower-case to the same string exactly when they have the same length and are position by position ASCII case variants of each other |
| `Ascii.ToLowerIdempotent` | src/pages/Menu.tsx:80-81 | lower-casing an already lower-cased string changes nothing |
| `Ascii.ToLowerAppend` | src/pages/Menu.tsx:80-81 | lower-casing a concatenation is the concatenation of the lower-cased parts |
| `Ascii.ToLowerPrefix` | src/pages/Menu.tsx:80-81 | lower-casing keeps a prefix a prefix |
| `Ascii.ToLowerSlice` | src/pages/Menu.tsx:80-81 | lower-casing a slice gives the same slice of the lower-cased string |
| `Substring.Contains` | src/pages/Menu.tsx:80-81 | `includes`: the empty needle and any prefix of the haystack are found, and a found needle is never longer than the haystack |
| `Substring.ContainsIffOccurs` | src/pages/Menu.tsx:80-81 | `includes` holds exactly when the needle occupies some run of consecutive positions of the haystack |
| `Substring.ContainsEmpty` | src/pages/Menu.tsx:80-81 | every string includes the empty string |
| `Substring.ContainsTransitive` | src/pages/Menu.tsx:80-81 | a substring of a substring is a substring |
| `Substring.ContainsPrefix` | src/pages/Menu.tsx:80-81 | a string that includes a term includes every prefix of that term |
| `Menu.MatchesSearch` | src/pages/Menu.tsx:80-81 | the empty search term lets every item through, and a passing item's name or description is at least as long as the term |
| `Menu.Matches` | src/pages/Menu.tsx:78-83 | the predicate given to `Array.filter`: every item passes under `"All"` with an empty term, and a passing item has the selected category (unless `"All"`) and a name or description that can hold the term |
| `Menu.Filter` | src/pages/Menu.tsx:78-83 | soundness and completeness: an item is in the result exactly when it is in the input and passes both the category test and the search test; the result is never longer than the input |
| `Menu.FilterIsSubsequence` | src/pages/Menu.tsx:78-83 | the result is a subsequence of the input: relative order is kept and no item is invented or duplicated |
| `Menu.FilterCounts` | src/pages/Menu.tsx:78-83 | each passing item occurs in the result as often as in the input; each failing item does not occur at all |
| `Menu.FilterUnique` | src/pages/Menu.tsx:78-83 | the filter is the only order-preserving selection of passing items that keeps every passing item as often as the input has it |
| `Menu.FilterIdempotent` | src/pages/Menu.tsx:78-83 | filtering the shown list again with the same category and term gives the same list |
| `Menu.FilterAllEmptyIsIdentity` | src/pages/Menu.tsx:78-83 | under `"All"` with an empty search term the result is the whole input |
| `Menu.SearchCaseInsensitive` | src/pages/Menu.tsx:80-81 | replacing the search term with any ASCII case variant of it gives the same result |
| `Menu.SearchNarrows` | src/pages/Menu.tsx:80-81 | a new search term whose lower-cased form contains the old lower-cased term (characters typed before or after the old term) never brings back an item that was filtered out |
| `Menu.SearchAppendNarrows` | src/pages/Menu.tsx:80-81 | in particular, appending characters to the search term never brings back an item that was filtered out |
| `Menu.EmptySearchIsCategoryFilter` | src/pages/Menu.tsx:78-83 | with an empty search term, a category other than `"All"` shows exactly that category's items, in order |
| `Menu.Initial` | src/pages/Menu.tsx:75-76 | the page starts with the `"All"` button highlighted and an empty search term |
| `Menu.SelectCategory` | src/pages/Menu.tsx:120 | clicking a category button highlights that button and keeps the search term |
| `Menu.SetSearchTerm` | src/pages/Menu.tsx:108 | typing sets the search term to the box's text and keeps the selected category |
| `Menu.Shown` | src/pages/Menu.tsx:78-83 | the grid shows no more items than the menu has, and an item is shown exactly when it is on the menu and passes both tests of the current state |
| `Menu.ShowsNoResults` | src/pages/Menu.tsx:137 | an empty menu always shows the message, and when the message shows no menu item passes both tests |
| `Menu.InitialShowsEverything` | src/pages/Menu.tsx:75-83 | the initial state (`"All"`, empty term) shows the whole list, and the no-results message appears then only for an empty menu |
| `Menu.NoResultsIff` | src/pages/Menu.tsx:137-143 | the "No dishes found" message is rendered exactly when no input item passes both tests |
| `Menu.HandlersPreserveReachable` | src/pages/Menu.tsx:75-120 | the initial category and every category a button can set are among the category buttons; a click keeps the search term and typing keeps the category, as two independent `useState` hooks do |
| `Menu.ExactlyOneHighlighted` | src/pages/Menu.tsx:115-118 | while the category comes from the buttons, exactly one button is drawn highlighted |
| `Menu.EmptySearchShowsOnly` | src/pages/Menu.tsx:78-83 | when exactly one item has the selected category, an empty search shows that item alone |
| `Menu.InCategoryAppend` | src/pages/Menu.tsx:79 | selecting by category alone distributes over concatenation of item lists |
| `Menu.EmptySearchShowsGap` | src/pages/Menu.tsx:78-83 | when the items of the selected category are exactly those outside one run, an empty search shows the items before and after that run |
| `Menu.CatalogueAppetizers` | src/pages/Menu.tsx:9-83 | on the mock catalogue, the `"Appetizer"` button with an empty search shows the Caesar salad alone |
| `Menu.CatalogueDesserts` | src/pages/Menu.tsx:9-83 | on the mock catalogue, the `"Dessert"` button with an empty search shows the lava cake alone |
| `Menu.CatalogueMainCourses` | src/pages/Menu.tsx:9-83 | on the mock catalogue, the `"Main Course"` button with an empty search shows the four main courses in menu order |
| `Menu.SalmonMatchesUpperCase` | src/pages/Menu.tsx:80-81 | an item named "Grilled Salmon" passes the search for "SALMON" |
| `Menu.CatalogueSearchSalmon` | src/pages/Menu.tsx:9-83 | on the mock catalogue, searching for "SALMON" under `"All"` shows the grilled salmon |

## Left out

- Full Unicode `toLowerCase`: only the 26 ASCII letters are folded. Other
  characters are left unchanged, including letters that JavaScript would fold
  (accented capitals, for instance) and ones whose lower-case form has a
  different length.
- JavaScript strings are sequences of UTF-16 code units; the model's strings
  are sequences of Unicode scalar values, so a lone surrogate typed into the
  search box cannot be represented. On well-formed text `includes` gives the
  same answer either way.
- `price` and `rating` of the mock items: they are floating-point numbers and
  the filter never reads them.
- React `useState` and re-rendering: the category and the search term are a
  plain value (`MenuState`), and the setters are functions that return the
  new value.
- Rendering: the grid of `MenuCard`s, the header, and the button variants
  beyond which button is highlighted.
- `Menu.CatalogueSearchSalmon` shows that the salmon is in the result; it does
  not list the whole result of that search.
- `src/lib/api.ts`: each function makes one `fetch` call and checks
  `response.ok`. It is network I/O with no logic of its own.
- `src/pages/Admin.tsx`: it renders hard-coded statistics and orders and
  never calls the REST client. Its only handler apart from the form-field
  setters shows a toast and resets the form. So the code has no order
  lifecycle, snapshot or refresh-after-mutation logic to model.
- `src/components/Navigation.tsx`, `src/components/MenuCard.tsx`,
  `src/components/HeroSection.tsx`, `src/pages/Index.tsx`: routing and
  presentation only. `MenuCard`'s price uses floating-point `toFixed(2)`.
