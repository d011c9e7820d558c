# equalize-heights in Dafny

equalize-heights makes the elements of a web page that belong to the same group
equally tall. Each group is set to the height of its tallest member. This
project models the hand-written part of the library and proves its properties.

The current version of the routine (`dist/equalizeHeights.js`) runs in four steps:

- It reads `window.equalizeHeightsOptions` and the viewport width, and decides an
  action: "equalize", "reset", or whatever a breakpoint entry names.
- On "reset", it sets the inline height of every element matched by
  `[data-equalize], [class*="eh-"]` to `auto`.
- Otherwise it groups the matched elements by one key each. The key is a
  non-empty `data-equalize` value, or else the first class that starts with `eh-`.
- It visits the groups in `Object.keys` order. Each group's members are set to
  `auto`, then measured, then set to the largest measured height.

The older version (`src/runtime.js`) has no breakpoints and no reset. It puts an
element into one group for every `eh-` class the element carries, so a later
group can overwrite an earlier group's height.

Both versions run the routine again on window resize through `debounce`, with a
wait of 150 ms.

The model is built from these modules:

- `Common`: option and result types, plus small sequence predicates.
- `Dom`: the abstract page.
  - Elements are identified by their position in document order.
  - An element has an optional `data-equalize` value, a duplicate-free class
    list, and a natural height in whole pixels.
  - Inline heights are a map from element to `auto` or a pixel height.
  - `offsetHeight` reports an explicit pixel height as is. Otherwise it
    reports the element's natural height. This assumes `box-sizing:
    border-box`, which the library itself never sets (see Left out).
- `Breakpoints`: `getCurrentAction`.
- `ObjectKeys`: the order in which `Object.keys` lists an ordinary object's
  keys (ECMAScript, section 10.1.11.1). Array-index keys come first in ascending
  numeric order, then the other keys in insertion order.
- `Grouping` and `GroupReference`:
  - group discovery, shared by both versions and parameterised by the keys an
    element yields;
  - a direct reference definition of each group as a filter of the document.
- `Equalize`: the three-phase height assignment of one group, and a run over
  several groups.
- `Bundle`: the current `equalizeHeights` routine.
- `Runtime`: the older class-only routine, and how it relates to the current one.
- `Prototype`: the current routine as written, with its groups kept in an object
  literal (see Findings).
- `Debounce`: `debounce` as a state machine over a trace of calls and elapsed
  intervals.

Two facts about the code that are easy to miss:

- Any array in `breakpoints` switches `minWidth` off, even an empty one, and
  an empty array yields "equalize" (`Breakpoints.ArrayIgnoresMinWidth`).
- Only an action exactly equal to "reset" resets; every other action,
  recognised or not, equalizes (`Bundle.UnrecognisedActionEqualizes`).

## Model

| member | source | states |
|---|---|---|
| Dom.SetAll | dist/equalizeHeights.js:7580-7582 | Writing one value to a list of elements gives every listed element that value and changes no other element |
| Breakpoints.FirstMatch | dist/equalizeHeights.js:7557-7562 | The scan returns the first entry whose inclusive range `[min or 0, max or unbounded]` holds the width; no earlier entry holds it; none is returned only when no entry holds it |
| Breakpoints.CurrentAction | dist/equalizeHeights.js:7554-7569 | With a breakpoint array, the first matching entry's action is returned, or "equalize" when none matches. Without an array, a non-zero `minWidth` gives "reset" strictly below it and "equalize" otherwise; with neither option the result is "equalize" |
| Breakpoints.ArrayIgnoresMinWidth | dist/equalizeHeights.js:7556-7568 | Once `breakpoints` is an array, `minWidth` makes no difference, and an empty array yields "equalize" |
| Breakpoints.UnknownActionComesFromEntry | dist/equalizeHeights.js:7561-7568 | Any result other than "equalize" or "reset" is the action of a matching breakpoint entry |
| Breakpoints.TwoRangeExample | dist/equalizeHeights.js:7557-7562 | With ranges 0..599 reset and 600.. equalize, widths 500 and 599 reset while widths 600 and 800 equalize; both range ends are inclusive |
| Breakpoints.NoOptionsEqualize | dist/equalizeHeights.js:7555-7568 | A page without options always equalizes |
| ObjectKeys.Insert | dist/equalizeHeights.js:7602 | Placing a key into an ascending list of array-index keys keeps the list ascending and adds exactly that key |
| ObjectKeys.SortByValue | dist/equalizeHeights.js:7602 | Array-index keys are listed in ascending numeric order, and none is lost or added |
| ObjectKeys.OwnKeysOrder | dist/equalizeHeights.js:7602 | `Object.keys` lists every added key exactly once per addition. Array-index keys come before all others, in ascending order; the other keys keep their insertion order |
| ObjectKeys.IntegerKeysFirstExample | dist/equalizeHeights.js:7602 | Keys added as b, 10, a, 2 are listed as 2, 10, b, a |
| ObjectKeys.OwnKeysOfNamed | src/runtime.js:33 | When no key is an array index, `Object.keys` lists the keys in insertion order |
| ObjectKeys.NonDigitStartIsNamed | src/runtime.js:24-28 | Helper: a key whose first character is not a digit is never an array index |
| Grouping.PushEffect | dist/equalizeHeights.js:7596-7599 | A push creates the group on its key's first use, appends the element to that key's group only, and lists a new key after all older keys |
| Grouping.PushAllKeys | src/runtime.js:23-29 | Pushing one element under several keys adds exactly those keys and keeps each key listed once |
| Grouping.PushAllMembers | src/runtime.js:23-29 | Pushing one element under distinct keys appends it once to each of those groups and to no other group |
| Grouping.PushAllMembership | src/runtime.js:23-29 | After pushing, an element is in a group exactly when it was before, or it is the pushed element and the key is one of the keys |
| Grouping.PushAllOrder | src/runtime.js:25-27 | Keys already present keep their positions, and newly listed keys are keys of the pushed element that had no group yet |
| Grouping.DiscoverKeys | dist/equalizeHeights.js:7589-7601 | A key has a group exactly when some visited element yields it, and each key is listed once |
| Grouping.DiscoverMembers | src/runtime.js:22-31 | An element is in the group of a key exactly when it was visited and yields that key, whether or not the element yields one key or several |
| Grouping.GroupNodesValid | dist/equalizeHeights.js:7589-7601 | Every group member is an element of the page |
| Grouping.StepEffect | dist/equalizeHeights.js:7589-7600 | Visiting one element appends it after all earlier members of its groups, and an existing group keeps its first member |
| Grouping.DiscoverIncreasing | dist/equalizeHeights.js:7589-7601 | Every group is non-empty and lists its members in document order, each once |
| Grouping.DiscoverFirstSeen | dist/equalizeHeights.js:7595-7599 | Keys are listed in the order of the first element that yields each of them; keys first yielded by the same element follow the order in which that element yields them |
| Grouping.PushAllNewOrder | src/runtime.js:23-28 | The keys one push adds follow one another in the order the pushed keys name them |
| Grouping.DiscoverSameIntroducer | src/runtime.js:22-31 | Two keys introduced by the same element are listed in the order that element yields them |
| GroupReference.NodesYielding | dist/equalizeHeights.js:7589-7600 | The reference list of the elements that yield a key holds exactly those elements, in increasing document order |
| GroupReference.IncreasingUnique | dist/equalizeHeights.js:7589-7601 | Helper: two increasing lists with the same elements are equal |
| GroupReference.GroupIsFilter | dist/equalizeHeights.js:7589-7601 | When no element yields a key twice, each discovered group equals the reference list of the elements that yield its key |
| Equalize.Tallest | dist/equalizeHeights.js:7603-7609 | The reference group height is the largest natural height among the members, and 0 for no members |
| Equalize.TallestUnique | dist/equalizeHeights.js:7603-7609 | Helper: a list of elements has only one tallest height |
| Equalize.Measure | dist/equalizeHeights.js:7607-7609 | The measuring pass yields the largest height the members currently report, and 0 for no members |
| Equalize.MeasureAfterClear | src/runtime.js:35-40 | Measured after every member was set to auto, the pass yields the tallest natural height |
| Equalize.SkippingClearMeasuresStaleHeight | dist/equalizeHeights.js:7604-7609 | Without the auto pass, a member still at 100px from an earlier run is measured at 100px, not at its natural 40px |
| Equalize.EqualizeGroup | dist/equalizeHeights.js:7603-7612 | After one group's three phases, every member has the group's tallest natural height and every other element keeps its height |
| Equalize.LastGroupOf | src/runtime.js:33-44 | The result is the last group containing the element, and there is none only when no group contains it |
| Equalize.LastWriteWins | src/runtime.js:33-44 | After several groups are handled in order, an element ends with the tallest natural height of the last group that contains it. An element in no group keeps its height |
| Equalize.ApplyAllIdempotent | dist/equalizeHeights.js:7602-7614 | Handling the same groups a second time changes nothing |
| Equalize.SameInlineSameStyles | dist/equalizeHeights.js:7602-7614 | Helper: two sets of inline heights that agree on every element are the same |
| Bundle.FirstPrefixed | dist/equalizeHeights.js:7593 | The result is the first class in list order that starts with `eh-`; there is none only when no class starts with it |
| Bundle.GroupKey | dist/equalizeHeights.js:7591-7594 | A non-empty `data-equalize` value is the key whatever the classes are. Otherwise the key is the first `eh-` class, and there is no key exactly when no class starts with `eh-`. A key is never empty |
| Bundle.KeyedIsManaged | dist/equalizeHeights.js:7587-7595 | Every element that has a key is matched by the query |
| Bundle.BundleKeys | dist/equalizeHeights.js:7591-7600 | An element joins at most one group |
| Bundle.ManagedNodes | dist/equalizeHeights.js:7579 | The query lists exactly the elements with a `data-equalize` attribute or a class containing `eh-` |
| Bundle.ResetAll | dist/equalizeHeights.js:7577-7583 | Reset sets every matched element to auto, including matched elements without a key. It leaves every other element alone |
| Bundle.YieldsIff | dist/equalizeHeights.js:7595-7599 | An element is pushed under a key exactly when that key is its key |
| Bundle.GroupsPartition | dist/equalizeHeights.js:7588-7601 | An element is in the group of a key exactly when its key is that key, so the groups partition the keyed elements. Each group equals the reference list in document order |
| Bundle.DistinctFirstMembers | dist/equalizeHeights.js:7595-7599 | Two different groups start at different elements |
| Bundle.VisitOrder | dist/equalizeHeights.js:7602 | Groups are visited once each, and they are listed in strictly increasing order of their first element |
| Bundle.VisitedList | dist/equalizeHeights.js:7602-7604 | Each visited list is exactly the elements whose key is the visited key |
| Bundle.KeyVisited | dist/equalizeHeights.js:7602 | The key of every keyed element is visited |
| Bundle.EqualizePath | dist/equalizeHeights.js:7602-7614 | Whatever the visiting order, every keyed element ends with the tallest natural height among the elements sharing its key. Every other element keeps its height |
| Bundle.EqualizeHeights | dist/equalizeHeights.js:7572-7615 | Only the action "reset" takes the reset path, with the effect of `ResetAll`; any other action equalizes every keyed element to its group's tallest natural height |
| Bundle.Idempotent | dist/equalizeHeights.js:7572-7615 | Running the routine twice with the same page and width gives the same heights as running it once |
| Bundle.GroupIsolation | dist/equalizeHeights.js:7602-7612 | A group's height depends only on which elements have its key and on their natural heights, not on other groups or earlier inline heights |
| Bundle.KeyPrecedenceExample | dist/equalizeHeights.js:7590-7600 | `data-equalize="x"` wins over class `eh-y`; an empty attribute falls back to the first `eh-` class; a class `teh-x` is matched but gives no key |
| Bundle.UnrecognisedActionEqualizes | dist/equalizeHeights.js:7561-7577 | An entry with action "Reset" (any value other than exactly "reset") leads to equalization |
| Runtime.PrefixedClasses | src/runtime.js:23-24 | The result is exactly the element's classes that start with `eh-`, each once, in class-list order |
| Runtime.LegacyKeysIff | src/runtime.js:19-24 | An element joins the group of key k exactly when k is one of its classes and starts with `eh-`; the substring query never hides such an element |
| Runtime.LegacyKeyIsNamed | src/runtime.js:24-28 | No key of the older routine is an array index |
| Runtime.LegacyVisitOrder | src/runtime.js:25-33 | The older routine visits its groups in first-seen order |
| Runtime.LegacyClassOrder | src/runtime.js:22-33 | Two classes first seen on the same element are visited in that element's class-list order, which decides which of the element's groups writes its height last |
| Runtime.VisitedClassLists | src/runtime.js:33-35 | Each visited list is exactly the elements carrying the visited class, in document order |
| Runtime.InClassList | src/runtime.js:33-35 | An element is in a visited list exactly when it carries that list's class |
| Runtime.ClassListed | src/runtime.js:22-31 | The first `eh-` class of an element is a visited key |
| Runtime.RuntimeApplies | src/runtime.js:33-44 | The older routine handles the groups in first-seen order, with no breakpoint or reset step |
| Runtime.RuntimeUnclassed | src/runtime.js:19-44 | An element without an `eh-` class keeps its height |
| Runtime.RuntimeClassed | src/runtime.js:33-44 | An element with `eh-` classes ends at the height of its own group that is visited last, so membership is not a partition |
| Runtime.OverlapKeys | src/runtime.js:23-24 | A yields `eh-a` and `eh-b`, B yields `eh-a`, and C yields `eh-b` |
| Runtime.OverlapDiscover | src/runtime.js:22-31 | Three elements yielding `eh-a eh-b`, `eh-a` and `eh-b` form the groups `eh-a` = {first, second} and `eh-b` = {first, third}, in that order |
| Runtime.OverlapGroups | src/runtime.js:22-31 | A(`eh-a eh-b`), B(`eh-a`), C(`eh-b`) form groups `eh-a` = {A, B} and `eh-b` = {A, C}, in that order |
| Runtime.OverlapLists | src/runtime.js:33-35 | Those groups are visited as {A, B}, then {A, C} |
| Runtime.OverlapFinal | src/runtime.js:33-44 | Handling {A, B} and then {A, C} leaves A written last by the second group |
| Runtime.OverlapExample | src/runtime.js:22-44 | A, B and C end at 20px, 50px and 20px, so A and B share a group but differ in height |
| Runtime.RuntimeIdempotent | src/runtime.js:18-45 | A second run of the older routine changes nothing |
| Runtime.FirstPrefixedIsHead | src/runtime.js:23-24 | Helper: the first `eh-` class is the head of the list of `eh-` classes |
| Runtime.DiscoverSameKeys | src/runtime.js:22-31 | Helper: group discovery depends only on the keys the page's elements yield |
| Runtime.AgreesWithBundle | src/runtime.js:18-45 | On a page with no `data-equalize` attribute and at most one `eh-` class per element, the older routine and the current routine's equalize path give every element the same height; the two routines agree whenever the options do not select "reset" |
| Prototype.PushAllAsWrittenEffect | dist/equalizeHeights.js:7595-7599 | While no group has an inherited name, pushing throws exactly when a key is an inherited name, and otherwise matches the model |
| Prototype.DiscoverAsWrittenEffect | dist/equalizeHeights.js:7588-7601 | Grouping as written throws exactly when some element yields an inherited name, and otherwise builds the model's groups |
| Prototype.AsWrittenAgreesUnlessCollision | dist/equalizeHeights.js:7572-7615 | The routine as written fails exactly when it equalizes a page where some key is an inherited name. Whenever it succeeds, it gives the model's heights |
| Prototype.ConstructorKeyExample | dist/equalizeHeights.js:7588-7599 | Two cards with `data-equalize="constructor"` at 30px and 50px make the routine as written throw, while the model gives both 50px |
| Prototype.InheritedNotPrefixed | src/runtime.js:24 | Helper: no inherited property name starts with `eh-` |
| Prototype.LegacyNeverCollides | src/runtime.js:20-28 | The older routine's grouping never hits an inherited name and always succeeds |
| Debounce.WaitTiming | dist/equalizeHeights.js:7539-7546 | One call followed by an interval of ms milliseconds runs the function exactly when ms reaches the wait: 150 ms when no wait is given (149 ms does not run it, 150 ms does), the given wait when it is not negative, and at once when it is negative |
| Debounce.Step | dist/equalizeHeights.js:7541-7547 | A call never runs the function and replaces any pending timer with one carrying its own arguments and the full wait. An interval runs the function only with the pending timer's arguments, and exactly when the time left is used up |
| Debounce.LastCall | src/runtime.js:11-13 | The result is the position of the last call: a call, followed only by intervals |
| Debounce.ElapsedAppend | src/runtime.js:13 | Helper: the time in two consecutive pieces of a trace adds up |
| Debounce.PendingInvariant | dist/equalizeHeights.js:7545-7546 | After any trace, at most one timer is pending. It is the last call's, with the wait minus the time since that call, as long as that time is below the wait or no interval has passed since |
| Debounce.FiresIff | dist/equalizeHeights.js:7545-7546 | The function runs at an interval with arguments a exactly when the last call before it passed a, that call's wait had not yet passed, and it passes with this interval |
| Debounce.ElapsedThrough | src/runtime.js:13 | Helper: the time up to and including an event is the time before it plus the event's own interval |
| Debounce.ElapsedGrows | src/runtime.js:13 | Helper: a longer stretch of a trace holds at least as much time |
| Debounce.SameLastCall | src/runtime.js:12 | Helper: two calls that are each followed only by intervals up to the same point are the same call |
| Debounce.LastCallUnique | src/runtime.js:12 | Helper: a call followed only by intervals is the last call |
| Debounce.CallBetweenRuns | src/runtime.js:11-14 | Between any two runs of the function there is a call, so a burst of calls runs it at most once |
| Debounce.RunsAtMostCalls | dist/equalizeHeights.js:7541-7547 | Runs never outnumber calls, counting a still-pending timer as a run to come |
| Debounce.BurstExample | dist/equalizeHeights.js:7618 | Calls 100 ms apart followed by a 150 ms pause run the function once, with the last call's arguments |

## Left out

- The polyfill library bundled before the routine, the build configuration, and the Tailwind plugin file: none of them contains this library's logic.
- Querying the page: the document is a sequence in document order, which is the order `querySelectorAll` returns.
- Event wiring (the ready-state check, `DOMContentLoaded`, the resize listener) and `console.log`: these are I/O. The routine is modelled as a function of the options, the viewport width, the page and the current inline heights.
- Real timers: time is a trace of elapsed intervals. The `this` value that `debounce` forwards is not modelled, because the routine ignores it.
- Layout: natural heights are inputs and do not depend on other elements' heights. Heights are whole pixels, and fractional layout is not modelled.
- A `null` entry or a hole in the `breakpoints` array: reading `bp.min` on it throws a `TypeError` that ends the routine before any height is written. Entries here are always objects.
- `box-sizing`: a pixel height written inline is read back unchanged by `offsetHeight` only under `border-box`, which the page must supply. Under `content-box` the measured height would include padding and borders and could grow on every run.
- Option values of the wrong type: breakpoint bounds are integers or absent, so `null`, strings and fractional bounds are not modelled; `minWidth` is an integer or absent; a non-string action counts as no action, since it never equals "reset".
- Debounce.WaitTiming: does not model non-integer waits, or the timer clamps for very large or deeply nested delays; the routine always passes 150.

## Findings

| source | as written | input that shows it | evidently intended | confidence | as-written member | corrected member |
|---|---|---|---|---|---|---|
| dist/equalizeHeights.js:7588-7599 | Groups are collected in `{}`, which inherits `Object.prototype`. For a key such as "constructor", "toString" or "__proto__", `!groups[key]` is false because the inherited value is truthy, so no array is created and `groups[key].push` throws a `TypeError`. The whole equalize run stops before any height is written. | Two elements with `data-equalize="constructor"` (30px and 50px), no options | Every non-empty key starts with an empty group, as with `Object.create(null)` or a `Map`, and both elements get 50px | high, not executed | Prototype.ConstructorKeyExample | Bundle.EqualizeHeights |
