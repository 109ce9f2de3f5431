# Search modal: query filtering and keyboard navigation

A Dafny model of the search modal of a static site (`SearchModal.tsx`). The
component has two parts, and the model covers both.

- **Query side** (`query.dfy`, built on `text.dfy`). `handleSearch` turns the
  typed value into the search string: it removes the first backslash and then
  lower-cases. `doSearch` returns nothing for the empty search string.
  Otherwise it keeps, in corpus order, every entry whose title, description,
  space-joined categories, space-joined tags or content contains the search
  string, ignoring case. The model writes these as functions. An independent
  reference predicate (`Mentions`) and a list of hit positions (`Hits`) are the
  partners that the lemmas relate them to.
- **Keyboard side** (`navigation.dfy`). The `useEffect` closure holds
  `selectedIndex`, the modal's `show` class and the "active" class of every
  rendered result. The model gives them as a pure transition function `Step`
  over `NavState` (and `Run` over a sequence of events). It also gives them as
  the class `SearchNavigation`, whose fields are `isOpen`, `selectedIndex`, and
  `items: array<bool>` for the active markers. Its methods are proved against
  `Step` and `FirstActive`.

`wrappers.dfy` holds `Option`. `filter.dfy` models `Array.prototype.filter`
for any callback. `text.dfy` models the JavaScript built-ins that the
component uses:
- the string methods `toLowerCase` (ASCII only) and `replace` with a string
  pattern. `IndexOf` is the first-occurrence search inside `replace`; the
  component does not call `indexOf` itself.
- the array method `Array.prototype.join`.
- the literal substring test that a metacharacter-free regex performs.

Three behaviours of the code differ from what one might expect, and the model
keeps them as written:
- `replace("\\", "")` with a string pattern removes only the first
  backslash, not every backslash (`Query.NormaliseDropsOnlyFirstBackslash`).
- `selectedIndex` is reset whenever the results change. The effect depends
  on `[searchString, searchData]`, so it runs again and re-creates
  `selectedIndex = -1` (`Navigation.SearchNavigation.Rebind`). Because of
  this, the index cannot point past the rendered items. The reset does not
  clear the "active" class on result nodes that survive the re-render. So
  right after retyping, Enter can click the previously highlighted item
  while nothing is selected (`Navigation.EnterAfterRebind`).
- The handler never looks at `show`, so the arrows also move the index while
  the modal is hidden (`Navigation.ArrowsMoveWhileClosed`).

## Model

| member | source | states |
|---|---|---|
| Text.Lower | src/layouts/helpers/SearchModal.tsx:26 | `toLowerCase` keeps the length, maps each character by ASCII lower-casing, and leaves no upper-case letter |
| Text.LowerIdempotent | src/layouts/helpers/SearchModal.tsx:26 | lower-casing an already lower-cased string changes nothing |
| Text.IndexOf | src/layouts/helpers/SearchModal.tsx:18 | the position found holds the character and no earlier position does; -1 exactly when the character is absent |
| Text.ReplaceFirst | src/layouts/helpers/SearchModal.tsx:18 | `replace` with a string pattern removes exactly the first occurrence, or nothing when there is none |
| Text.Join | src/layouts/helpers/SearchModal.tsx:31 | joining the empty list gives "" and a one-element list gives that element |
| Text.JoinAppend | src/layouts/helpers/SearchModal.tsx:31 | joining two non-empty lists put together is joining each and putting the separator between them; with the two cases above this determines `join` completely |
| Text.OccursShift | src/layouts/helpers/SearchModal.tsx:23 | when the pattern is not a prefix, it occurs in the text iff it occurs in the text without its first character |
| Text.Contains | src/layouts/helpers/SearchModal.tsx:23 | the left-to-right literal scan succeeds iff the pattern occurs at some position of the text |
| Text.JoinHasElement | src/layouts/helpers/SearchModal.tsx:31 | every list element appears whole inside the joined string |
| Text.OccursInJoin | src/layouts/helpers/SearchModal.tsx:30-34 | a pattern found in one lower-cased element is found in the lower-cased joined string |
| Query.Normalise | src/layouts/helpers/SearchModal.tsx:18 | the result is lower-case, one character shorter exactly when a backslash was present, and equal to the lower-cased input with only its first backslash removed |
| Query.NormaliseFixesNormal | src/layouts/helpers/SearchModal.tsx:18 | a lower-case, backslash-free string is left unchanged |
| Query.NormaliseDropsOnlyFirstBackslash | src/layouts/helpers/SearchModal.tsx:18 | a second backslash survives, so normalising twice can differ from normalising once |
| Query.RegexMatch | src/layouts/helpers/SearchModal.tsx:23 | `match` with the `"gi"` regex built from a metacharacter-free query succeeds iff the lower-cased query occurs in the lower-cased text |
| Query.OptionalMatch | src/layouts/helpers/SearchModal.tsx:27-29 | an absent field never matches; a present one matches iff the lower-cased pattern occurs in the lower-cased field |
| Query.JoinedWords | src/layouts/helpers/SearchModal.tsx:30-34 | an absent list stays absent, a present one becomes its elements joined with single spaces |
| Query.ItemMatches | src/layouts/helpers/SearchModal.tsx:25-36 | for a lower-case query, the filter callback holds iff the query occurs in the title, description, joined categories, joined tags or content; absent fields never match |
| Query.RegexMatchLower | src/layouts/helpers/SearchModal.tsx:26 | for a lower-case query, testing a lower-cased field is plain substring occurrence |
| Query.CategoryHitIsItemHit | src/layouts/helpers/SearchModal.tsx:30-36 | a query found in any single category makes the item a hit |
| Filtering.FilterKeepsAccepted | src/layouts/helpers/SearchModal.tsx:25-37 | everything `filter` keeps is an element of the input that the callback accepts |
| Filtering.HitsAreAccepted | src/layouts/helpers/SearchModal.tsx:25-37 | the kept positions lie in the input, increase strictly, and are exactly the positions the callback accepts |
| Filtering.FilterAtHits | src/layouts/helpers/SearchModal.tsx:25-37 | `filter` lists the input's elements at the kept positions, in input order |
| Filtering.FilterCount | src/layouts/helpers/SearchModal.tsx:25-37 | each value occurs in the output as often as in the input if accepted, and never otherwise |
| Filtering.Filter | src/layouts/helpers/SearchModal.tsx:25-37 | `filter` never returns more items than it was given (the `Filtering` lemmas above characterise it completely) |
| Query.DoSearch | src/layouts/helpers/SearchModal.tsx:22-38 | the empty search string yields nothing whatever the corpus; otherwise every result is a matching corpus item |
| Query.DoSearchSelects | src/layouts/helpers/SearchModal.tsx:24-37 | for a non-empty query the result is an order-preserving subsequence of the corpus at exactly the matching positions |
| Query.DoSearchCount | src/layouts/helpers/SearchModal.tsx:24-37 | nothing is added or duplicated: an item occurs in the result as often as in the corpus if it matches a non-empty query, and never otherwise |
| Query.DoSearchMembership | src/layouts/helpers/SearchModal.tsx:24-36 | for a non-empty normalised query, an item is in the result iff it is in the corpus and mentions the query in one of its five fields |
| Query.Search | src/layouts/helpers/SearchModal.tsx:41 | an input that is empty or a lone backslash finds nothing in any corpus; every result comes from the corpus |
| Navigation.NextIndex | src/layouts/helpers/SearchModal.tsx:98-103 | an index in [-1, n-1] stays there, a non-negative index stays non-negative, the arrows move it by at most one and other keys not at all |
| Navigation.Step | src/layouts/helpers/SearchModal.tsx:85-112 | Ctrl/Cmd+K opens, Escape closes, other keys keep `show`; keys other than the arrows keep the index; the range [-1, n-1] is preserved |
| Navigation.RunStaysInRange | src/layouts/helpers/SearchModal.tsx:98-103 | from a valid index, any key sequence keeps -1 <= selectedIndex <= n-1 |
| Navigation.RunWithoutItems | src/layouts/helpers/SearchModal.tsx:69-103 | with no rendered items, the index stays -1 for any key sequence |
| Navigation.RunKeepsSelection | src/layouts/helpers/SearchModal.tsx:98-103 | once the index is at least 0, no key sequence brings it back to -1 |
| Navigation.RunMovesOnePerKey | src/layouts/helpers/SearchModal.tsx:98-103 | after k keys the index is within k of where it started |
| Navigation.ArrowDownClamps | src/layouts/helpers/SearchModal.tsx:99-103 | k ArrowDown presses reach min(index + k, n - 1): the index clamps at the last item and does not wrap |
| Navigation.ArrowUpClamps | src/layouts/helpers/SearchModal.tsx:98 | k ArrowUp presses reach max(index - k, 0), or stay at -1: the index never wraps |
| Navigation.ArrowsMoveWhileClosed | src/layouts/helpers/SearchModal.tsx:92-103 | ArrowDown moves the index even when the modal is hidden |
| Navigation.FirstActive | src/layouts/helpers/SearchModal.tsx:104-108 | the item Enter clicks is the first one carrying the active marker, or none when no item carries it |
| Navigation.EnterActivatesSelection | src/layouts/helpers/SearchModal.tsx:104-109 | when only the selected item is marked, Enter activates exactly that item, and nothing when the index is -1 |
| Navigation.SearchNavigation.constructor | src/layouts/helpers/SearchModal.tsx:69 | the modal starts hidden with selectedIndex -1 over the rendered items |
| Navigation.SearchNavigation.Rebind | src/layouts/helpers/SearchModal.tsx:116 | when the effect runs again, the index returns to -1 over the new items and `show` is kept |
| Navigation.SearchNavigation.OpenFromTrigger | src/layouts/helpers/SearchModal.tsx:56-61 | a trigger click opens the modal and keeps the index |
| Navigation.SearchNavigation.CloseFromOverlay | src/layouts/helpers/SearchModal.tsx:64-66 | an overlay click closes the modal and keeps the index |
| Navigation.SearchNavigation.UpdateSelection | src/layouts/helpers/SearchModal.tsx:71-78 | afterwards item i is active iff i == selectedIndex: at most one item is active, and none at -1 |
| Navigation.EnterAfterRebind | src/layouts/helpers/SearchModal.tsx:69-116 | after two ArrowDowns and a re-run of the effect over the same nodes, Enter clicks item 1 while the index is -1: the reset leaves stale markers |
| Navigation.SearchNavigation.HandleKey | src/layouts/helpers/SearchModal.tsx:85-112 | the new (show, index) is `Step` of the old one; markers afterwards show the selection; Enter clicks the first previously marked item, which is the selected one when the markers were in sync |

## Left out

- The fetch of `/json/search.json` and its fallback to an empty list (network I/O). The corpus is a parameter and may be empty.
- The timing with `performance.now()` and `toFixed(3)` (wall-clock floating point).
- DOM plumbing: element lookups, adding and removing listeners, `focus()`, `preventDefault()` on the arrows, and `scrollIntoView`. The anchor `click()` is represented by the position `HandleKey` returns.
- JSX rendering and the `SearchResult` component, which is not part of this model. The number of rendered items is the length of the `items` array and is taken to be the length of the search result.
- Query.RegexMatch: holds only for patterns without regular-expression metacharacters (`\ ^ $ . * + ? ( ) [ ] { } |`). Any other query would be read by `RegExp` as a pattern, which the model does not interpret. Queries such as "C++" are outside the model for the same reason.
- Text.Lower: ASCII case mapping only. The Unicode case mapping of `toLowerCase` is not modelled, and neither is case folding beyond A-Z for the `i` flag.
- The setter calls (`setSearchString`, `setSearchData`) and React's re-rendering are represented by `Search` and `SearchNavigation.Rebind`, not by a model of React state.
