# Selection balancing (emmet `balance` action)

This project models the selection-balancing actions of `lib/action/balance.js`:

- the **markup balancer** (`balanceHTML`), a small state machine over one piece of session
  state, the last match. On each call it drops a stale match, flips the match's active range
  between its inner and outer range, asks the tag matcher again, and selects the result only
  if it differs from the current selection;
- the **style balancer** (`getCSSRanges`, `balanceCSS`). It builds up to five candidate ranges
  from the rule around the caret: the rule, its brace content, first name to last value, the
  current declaration, and that declaration's value. It drops repeated ranges, sorts the rest
  by length, and steps one position through the list from the best match. The filter meant to
  drop empty ranges drops none as the code is written (see "## Findings");
- the **matching-pair navigator** (`goToMatchingPairAction`), which moves the caret to the
  other tag of the enclosing pair;
- the **dispatch** (`balance` and its inward/outward wrappers), which picks a balancer by
  syntax and reads the direction (default `out`, case-insensitive).

Layout:

- `ranges.dfy` (`Ranges`): the range value and the range operations the action calls.
- `host.dfy` (`Host`): the editor as a record of text, selection, caret and syntax name.
  It also holds the direction (`In`, `Out`, `Other`).
- `html_balance.dfy` (`HtmlBalance`): the markup balancer as a function `Step` of the last
  match, plus lemmas about it.
- `css_balance.dfy` (`CssBalance`): the candidate list, the stable sort by length, the
  best-match search and the index step, as functions with lemmas. `BalanceCss` is the
  method that performs these steps one by one, as the code is written. `CorrectedRanges`
  and `CorrectedCssTarget` stand beside it with the empty-range filter as intended.
- `css_scenarios.dfy` (`CssScenarios`): two documents worked through the style balancer,
  `a{color:red;width:1px}` and the empty rule `a{}`.
- `matching_pair.dfy` (`MatchingPair`): the navigator.
- `balance.dfy` (`Balance`): class `BalanceAction`. Its field `lastMatch` is the
  module-level `lastMatch` of the source. Its methods update that field in place, as
  `balanceHTML` does, and dispatch the calls.
- `wrappers.dfy` (`Wrappers`): `Option`, which stands for the source's `null` results.

The external collaborators are function-typed parameters:

- the tag matcher's `find` and `tag`;
- `narrowToNonSpace`;
- the style parser's `parseFromPosition`, `parse` and `propertyFromPosition`.

Where a property depends on what the matcher delivers, the lemma states it as a hypothesis.
`HtmlBalance.WellFormedMatch` says the inner range lies within the outer range.
`CssBalance.Chain` says the rule's candidate ranges nest.

Behaviour the code fixes and a reader might expect otherwise:

- Style balancing from `color:red;` outward selects the brace content `color:red;width:1px`
  before the whole rule `a{color:red;width:1px}`. The brace-content candidate lies between
  them (`CssScenarios.StyleScenarioOutward`).
- The sorted candidates are guaranteed strictly ascending in length when the parser's ranges nest.
  Only exact duplicates are removed, so two different ranges of the same length both survive
  (`CssBalance.NestedCandidatesAscend`).
- An `out` request whose selection is not itself a candidate selects the shortest candidate
  enclosing the selection's start. That range can be shorter than the selection
  (`CssBalance.OutwardCanNarrow`).
- Markup treats every direction other than `in` as outward. Style treats every direction
  other than `out` as inward. `Direction.Other` keeps that difference.

## Model

| member | source | states |
|---|---|---|
| HtmlBalance.Validate | lib/action/balance.js:25-28 | a remembered match survives exactly when its active range equals the selection |
| HtmlBalance.Commit | lib/action/balance.js:64-70 | a call succeeds exactly when a match exists whose active range differs from the selection; it then selects that range and keeps the match, otherwise the match is cleared |
| HtmlBalance.Inward | lib/action/balance.js:37-45 | a match selected by its outer range switches to its inner range (within the selection when well formed); otherwise the result is the matcher's answer just inside the narrowed inner range, present exactly when the matcher finds a unit, the same unit, and with the inner range made active exactly when that unit's active and outer ranges are the selection |
| HtmlBalance.Outward | lib/action/balance.js:48-58 | a match selected by an inner range equal to the selection and different from its outer range switches to the outer range, which contains the selection when well formed; otherwise the result is the matcher's answer at the selection start, present exactly when the matcher finds a unit, the same unit, and with the outer range made active exactly when that unit's active and inner ranges are the selection |
| HtmlBalance.Step | lib/action/balance.js:20-71 | a successful call selects the new match's active range, never the current selection; a match kept afterwards has the resulting selection as its active range; the only failure that keeps a match is `in` on a selected unary tag, with a non-empty selection |
| HtmlBalance.StaleMatchIsDropped | lib/action/balance.js:26-61 | a match whose active range is not the selection has no effect: the result is that of a fresh query at the selection start |
| HtmlBalance.EmptySelectionQueriesAfresh | lib/action/balance.js:30-62 | with an empty selection the matcher is queried afresh at the selection start, whatever was remembered |
| HtmlBalance.UnaryInwardFails | lib/action/balance.js:31-35 | `in` on a selected unary tag fails, selects nothing and keeps the match unchanged |
| HtmlBalance.OutwardRequeryWidens | lib/action/balance.js:53-57 | a non-`in` call that asks the matcher again and gets a well-formed unit whose active and inner ranges are the selection selects that unit's outer range and keeps the unit with it active; that range contains the selection |
| HtmlBalance.InwardFromOuter | lib/action/balance.js:37-38 | `in` when the active range is the outer range makes the inner range active and selects it (fails if it equals the selection); for a well-formed match it lies within the selection |
| HtmlBalance.OutwardFromInner | lib/action/balance.js:48-52 | any non-`in` direction, when the active range is the inner range, equals the selection and differs from the outer range, makes the outer range active and selects it; for a well-formed match it contains the selection |
| HtmlBalance.OutThenIn | lib/action/balance.js:37-52 | `out` then `in` on an unchanged unit selects its outer range and then returns to its inner range with the original match |
| HtmlBalance.NoReselection | lib/action/balance.js:64-67 | after a successful call, a second call on the resulting selection never selects the same range again |
| CssBalance.ResolveRule | lib/action/balance.js:80-90 | a parsed rule is used as given; from text, the backward search's rule when it finds one, otherwise the forward search's result |
| CssBalance.CurrentProperty | lib/action/balance.js:109 | the declaration at the position if the parser reports one, else the rule's first declaration; none exactly when neither exists |
| CssBalance.Candidates | lib/action/balance.js:96-112 | the rule range, then the brace content (start shifted by the content offset, end one short of the rule's); then first name to last value when there are declarations; then the current declaration and its value when there is one; two to five ranges |
| CssBalance.Uniq | lib/action/balance.js:119-121 | the result has no two equal ranges and holds exactly the ranges of the input |
| CssBalance.UniqKeepsOrder | lib/action/balance.js:119-121 | the survivors keep the order of their first occurrences in the input |
| CssBalance.CssRanges | lib/action/balance.js:79-122 | no list exactly when no rule is found; otherwise at most five distinct ranges, exactly the candidates (empty ones included, since the filter as written keeps everything), in the order of their first occurrences |
| CssBalance.NonEmpty | lib/action/balance.js:114-117 | the filter as intended: the result holds exactly the non-empty ranges of the input |
| CssBalance.NonEmptyDistributes | lib/action/balance.js:114-117 | the intended filter works element by element, so it keeps the order of what it keeps |
| CssBalance.NonEmptyKeepsAll | lib/action/balance.js:114-117 | the intended filter leaves a list without empty ranges unchanged |
| CssBalance.NonEmptyKeepsOrder | lib/action/balance.js:114-117 | the intended filter keeps the relative order of the ranges it keeps |
| CssBalance.CorrectedKeepsOrder | lib/action/balance.js:114-121 | after the intended filter and deduplication, the survivors keep the order of their first occurrences among the candidates |
| CssBalance.CorrectedRanges | lib/action/balance.js:79-122 | with the intended filter: no list exactly when no rule is found; otherwise at most five distinct ranges, exactly the non-empty candidates, in the order of their first occurrences |
| CssBalance.InsertPermutes | lib/action/balance.js:145-147 | inserting adds exactly the new range |
| CssBalance.InsertSorted | lib/action/balance.js:145-147 | inserting into a list sorted by length keeps it sorted |
| CssBalance.InsertKeepsDistinct | lib/action/balance.js:145-147 | inserting a new range into a distinct sorted list keeps it distinct |
| CssBalance.SortByLength | lib/action/balance.js:145-147 | the sort orders by ascending length and is a permutation of its input |
| CssBalance.SortIsStable | lib/action/balance.js:145-147 | of two distinct ranges of equal length, the one earlier in the input comes first in the sorted list |
| CssBalance.SortKeepsDistinct | lib/action/balance.js:145-147 | sorting keeps distinct ranges distinct |
| CssBalance.IndexOf | lib/action/balance.js:151-153 | finds a position exactly when the selection is a candidate, and it is the first position holding it |
| CssBalance.FirstEnclosing | lib/action/balance.js:155-159 | the first candidate that starts before the position and ends at or after it, or none if no candidate does |
| CssBalance.BestMatch | lib/action/balance.js:149-163 | the selection's own position if it is a candidate, else the first candidate enclosing its start |
| CssBalance.Target | lib/action/balance.js:161-178 | the result is a candidate; off the candidate list it exists exactly when some candidate encloses the selection start, and then encloses it; with distinct candidates it is never the selection; from a candidate on a sorted list, `out` gives one at least as long and any other direction one at most as long |
| CssBalance.ShortestEnclosing | lib/action/balance.js:155-163 | off the candidate list the target is the shortest candidate enclosing the selection start |
| CssBalance.StepFromSelection | lib/action/balance.js:165-176 | from the i-th of distinct candidates the target is the (i+1)-th for `out` and the (i-1)-th otherwise, and fails out of bounds |
| CssBalance.OutThenIn | lib/action/balance.js:165-176 | `out` then `in` from a candidate returns to that candidate |
| CssBalance.OutwardCanNarrow | lib/action/balance.js:155-176 | an `out` from a selection that is not a candidate can select a shorter range |
| CssBalance.StrictWidths | lib/action/balance.js:145-147 | sorted, distinct, well-formed, nested ranges are strictly ascending in length |
| CssBalance.NestedCandidatesAscend | lib/action/balance.js:96-147 | when the rule's candidates are well formed and nested, the sorted candidate list is strictly ascending in length |
| CssBalance.SelectedRule | lib/action/balance.js:129-139 | the rule around the selection start if there is one; otherwise, for a non-empty selection, the selected text parsed at the selection start; otherwise none |
| CssBalance.Choose | lib/action/balance.js:145-178 | sorting a distinct list and stepping from the best match yields one of its ranges and never the selection |
| CssBalance.CssTarget | lib/action/balance.js:124-179 | the selected range is a candidate of the selected rule at the selection start, and never the current selection |
| CssBalance.BalanceCss | lib/action/balance.js:124-179 | succeeds exactly when `CssTarget` gives a range, and then selects it; on failure the editor is unchanged |
| CssBalance.CorrectedCssTarget | lib/action/balance.js:114-179 | with the intended filter, the selected range is a candidate of the selected rule, never the current selection, and never empty |
| CssBalance.CorrectionAgreesWithoutEmpty | lib/action/balance.js:114-117 | when the selected rule has no empty candidate, the code as written and as intended select the same range |
| CssScenarios.StyleScenarioFirst | lib/action/balance.js:145-178 | in `a{color:red;width:1px}` with the caret in `red`, `in` selects `red` |
| CssScenarios.StyleScenarioOutward | lib/action/balance.js:145-178 | from `red`, repeated `out` selects `color:red;`, then the brace content, then the rule, then fails |
| CssScenarios.EmptyRuleRanges | lib/action/balance.js:96-121 | in `a{}` the list as written holds the rule and the empty brace content, which sorts first |
| CssScenarios.EmptyRuleAsWritten | lib/action/balance.js:114-178 | in `a{}` as written, `in` from the whole rule selects the empty brace content, and `in` from the caret between the braces fails |
| CssScenarios.EmptyRuleCorrected | lib/action/balance.js:114-178 | in `a{}` with the intended filter, `in` from the whole rule fails, and `in` from the caret between the braces selects the rule |
| MatchingPair.LookupOffset | lib/action/balance.js:214-216 | the lookup offset is one past the caret exactly when the character at the caret is `<`, and the caret otherwise |
| MatchingPair.PairTarget | lib/action/balance.js:214-229 | a caret on `<` is looked up one further; without a pair or for a unary tag there is no target; otherwise the start of the closing tag when the lookup offset is inside the opening tag, else the opening tag's start |
| MatchingPair.JumpsBetweenTags | lib/action/balance.js:214-224 | for a pair reported from inside either tag, the caret goes from the opening `<` to the closing `<` and back |
| MatchingPair.GoToMatchingPair | lib/action/balance.js:210-230 | succeeds exactly when `PairTarget` gives an offset, and then moves only the caret there; on failure the editor is unchanged |
| Balance.ParseDirection | lib/action/balance.js:189 | no direction or an empty one means `out`; otherwise the name is compared case-insensitively with `in` and `out` |
| Balance.DirectionIgnoresCase | lib/action/balance.js:189 | `IN` and `In` mean `in`; `OUT` and no direction mean `out` |
| Balance.BalanceAction.constructor | lib/action/balance.js:18 | the session starts without a last match |
| Balance.BalanceAction.BalanceHtml | lib/action/balance.js:20-71 | the new last match and selection are those of `HtmlBalance.Step`; success never reselects the selection; a kept match has the resulting selection as its active range |
| Balance.BalanceAction.Balance | lib/action/balance.js:188-196 | syntax `css` goes to the style balancer and leaves the last match alone; every other syntax goes to the markup balancer; the direction is read by `ParseDirection` |
| Balance.BalanceAction.BalanceInward | lib/action/balance.js:198-200 | `balance` with direction `in` |
| Balance.BalanceAction.BalanceOutward | lib/action/balance.js:202-204 | `balance` with direction `out` |

## Left out

- The tag matcher (`htmlMatcher.find`, `htmlMatcher.tag`) is not part of this model. Both are parameters, and their guarantees appear only as lemma hypotheses.
- The style edit-tree parser (`parseFromPosition`, `parse`, `propertyFromPosition`) is not part of this model either. A rule is a record of its range, its content-start offset and its declarations. A parse error thrown by `parse` is `None`.
- `narrowToNonSpace` and `editorUtils.outputInfo` are not part of this model. The first is a parameter. The second is replaced by the editor record's `content` and `syntax` fields.
- The range module is not part of this model. Length is the distance between the endpoints. `cmp(pos, 'lt', 'gte')` is `start < pos <= end`, and `inside(pos)` is `start <= pos < end`. Deduplication is assumed to compare both endpoints; the range module's `valueOf` is not part of this model. `substring` is empty for an empty range and otherwise the text between the clamped endpoints.
- The module loader shim and lodash are left out. `_.uniq`, `_.find` and `_.indexOf` are written as functions. The `_.filter` call keeps every range as written, so `CssRanges` leaves it out and `NonEmpty` models the filter as intended. `_.indexOf` compares by identity; on the deduplicated list that is the position `_.find` found.
- `Array.prototype.sort` is modelled as a stable insertion sort on a sequence value (`CssBalance.SortIsStable`). Engines were not required to sort stably. The order of two different ranges of equal length may therefore differ from a given engine's order. `CssBalance.NestedCandidatesAscend` shows that such ties need candidates that do not nest or are not well formed.
- Updating `lastMatch.range` in place is modelled as replacing the match record. The matcher returns a new object on each call, so no other reference can see the difference.
- The editor's `createSelection` and `setCaretPos` change only the selection or only the caret. Any other effect they have in a host editor is left out.
- Offsets count the model's characters (`string` is a sequence of Unicode scalar values), while the host's offsets, `charAt` and `substring` count UTF-16 code units. Documents with a character outside the Basic Multilingual Plane before an offset are not modelled: in U+1F600 followed by `<a></a>`, with the caret at 2, the source sees `<` and looks up offset 3, while `MatchingPair.LookupOffset` sees `a` and looks up offset 2. `Ranges.Substring` and the parser's offsets differ in the same way.
- Lower-casing the direction covers ASCII letters only. JavaScript's `toLowerCase` also maps other scripts, which cannot spell `in` or `out`. A direction that is not a string is not modelled.
- CssBalance.Target: the "`out` gives a range at least as long" promise is stated only for a selection that is a candidate. From any other selection the source selects the shortest enclosing candidate in either direction, and `CssBalance.OutwardCanNarrow` shows that this range can be shorter.

## Findings

| source | as written | input that shows it | evidently intended | confidence | as-written member | corrected member |
|---|---|---|---|---|---|---|
| lib/action/balance.js:115-117 | `!!item.length` tests the `length` method itself, which is always truthy, so no empty range is removed | `a{}` with the whole rule selected and direction `in`: the empty brace content (2,2) is selected; with the caret at 2, `in` fails | `!!item.length()`: drop empty candidates, so `in` from the rule fails and `in` from the caret selects the rule | high; not executed | CssScenarios.EmptyRuleAsWritten | CssBalance.CorrectedCssTarget |
