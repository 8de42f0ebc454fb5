# Frequently-tabs-manager popup, modelled in Dafny

The popup of the "frequently tabs manager" sample extension lists the open
tabs of a few frequent sites. It takes the tabs the browser returns, groups
them by the hostname of their URL into an object whose properties keep
insertion order, renders one list per hostname (each item showing a
shortened title), and offers a button per list that gathers that
hostname's tabs into a collapsed, purple tab group titled with the first
five characters of the hostname.

This project models the logic of that popup, in
`functional-samples/tutorial.frequently-tabs-manager/popup.js`:

- `tabs.dfy` (module `Tabs`): the `Tab` record (`id`, `url`, `title`,
  `windowId`). URL parsing (`new URL(url).hostname` and `.pathname`) is
  the platform's business. It enters every operation as a parameter of
  type `UrlPart = string -> string`, and nothing is assumed about it.
- `grouping.dfy` (module `SiteGrouping`): `groupTabsByFreqSite` as the
  method `GroupTabsByFreqSite`. Its `for` loop creates a property the
  first time a hostname is met and pushes each tab onto its hostname's
  array. The object is the value `SiteTabs(keys, buckets)`: `keys` is the
  property creation order, which is the order `Object.entries` walks.
  `buckets` maps each property to its array. The method is proved to
  return `Group(tabs, hostname)`. Its keys are `FirstSeen`, the distinct
  hostnames in first-met order. Its arrays are `BucketMap`, the loop's
  create-then-push rule written as recursion. `BucketMapIsFilter` proves
  each of those arrays equal to `Bucket`, the input filtered to one
  hostname. Lemmas then prove the grouping properties: a partition of
  the input, non-empty buckets, input order kept, and keys in first-seen
  order.
- `titles.dfy` (module `Titles`): the display title
  `tab.title.split('-')[0].trim()`. `BeforeFirstDash` models the split.
  `Trim` with `JsWhitespace` models `String.prototype.trim`; that set is
  ECMAScript's WhiteSpace and LineTerminator code points.
  `DisplayTitleUnique` characterises the result independently, by the
  position of the first '-' and the white space around the kept piece.
- `rendering.dfy` (module `Rendering`): what `generateLists` renders,
  described as values and not as DOM nodes. There is one list per property
  in `Object.entries` order. Each list is headed by its hostname and has
  one item per tab, holding the display title, the pathname and the tab
  that a click activates.
- `tab_groups.dfy` (module `TabGroups`): the decision
  `groupTabsByHostName` makes, returned as a value. A missing property
  makes `tabs.map` throw (`NoSuchHost`). An empty id list makes no call
  (`NoCall`). Otherwise the result holds the arguments of the two browser
  calls (`GroupAndUpdate`): the tab ids, the title `hostname.slice(0, 5)`
  (with the clamping of `String.prototype.slice`), the colour purple and
  `collapsed: true`.

## Model

| member | source | states |
|---|---|---|
| `SiteGrouping.GroupTabsByFreqSite` | functional-samples/tutorial.frequently-tabs-manager/popup.js:33-47 | the loop returns exactly `Group(tabs)`: after each iteration the keys and arrays equal the grouping of the tabs seen so far |
| `SiteGrouping.Group` | functional-samples/tutorial.frequently-tabs-manager/popup.js:33-47 | the keys are distinct and are exactly the object's properties; each property's array is the input filtered to that hostname |
| `SiteGrouping.Bucket` | functional-samples/tutorial.frequently-tabs-manager/popup.js:35-41 | every tab pushed under `h` comes from the input and has hostname `h`; the array is empty exactly when no tab has hostname `h` |
| `SiteGrouping.FirstSeen` | functional-samples/tutorial.frequently-tabs-manager/popup.js:38-39 | keys are created once per hostname: no repeats, and a hostname is a key exactly when some tab has it |
| `SiteGrouping.BucketMap` | functional-samples/tutorial.frequently-tabs-manager/popup.js:38-41 | the arrays the loop builds: every array is non-empty, and holds only input tabs whose hostname is its key |
| `SiteGrouping.BucketMapIsFilter` | functional-samples/tutorial.frequently-tabs-manager/popup.js:38-41 | the create-then-push updates give a property exactly for each hostname met, holding that hostname's tabs in input order |
| `SiteGrouping.GroupSnoc` | functional-samples/tutorial.frequently-tabs-manager/popup.js:38-41 | one more tab either creates a new last key holding just that tab or appends the tab to its existing hostname's array; nothing else changes |
| `SiteGrouping.GroupByHostname` | functional-samples/tutorial.frequently-tabs-manager/popup.js:34-41 | an empty input gives an empty object; every array is non-empty; every tab under key `h` has hostname `h`; every input tab is in its hostname's array, so it is in exactly one array |
| `SiteGrouping.GroupIsPartition` | functional-samples/tutorial.frequently-tabs-manager/popup.js:35-41 | reading the arrays in key order gives a permutation of the input: no tab lost or duplicated, and the array lengths sum to the number of tabs |
| `SiteGrouping.Positions` | functional-samples/tutorial.frequently-tabs-manager/popup.js:35-41 | the ascending indices of exactly the input tabs with hostname `h` |
| `SiteGrouping.BucketKeepsInputOrder` | functional-samples/tutorial.frequently-tabs-manager/popup.js:35-41 | the k-th tab in `h`'s array is the input tab at the k-th index whose hostname is `h`, so order within an array is input order |
| `SiteGrouping.KeysInFirstSeenOrder` | functional-samples/tutorial.frequently-tabs-manager/popup.js:38-39 | when key i precedes key j, a tab with hostname `keys[i]` comes before every tab with hostname `keys[j]` |
| `Titles.BeforeFirstDash` | functional-samples/tutorial.frequently-tabs-manager/popup.js:66 | `split('-')[0]` is a prefix of the title that contains no '-' and stops at the first '-' or at the end |
| `Titles.BeforeFirstDashUnique` | functional-samples/tutorial.frequently-tabs-manager/popup.js:66 | when the first '-' of the title is at position d (or there is none and d is the length), `split('-')[0]` is exactly the first d characters |
| `Titles.LeadingSpace` | functional-samples/tutorial.frequently-tabs-manager/popup.js:66 | the index where the leading white space ends: everything before it is white space, and the character at it is not |
| `Titles.TrailingSpace` | functional-samples/tutorial.frequently-tabs-manager/popup.js:66 | the index where the trailing white space starts: everything from it on is white space, and the character before it is not |
| `Titles.Trim` | functional-samples/tutorial.frequently-tabs-manager/popup.js:66 | `trim()` keeps only characters of its input and leaves no white space at either end |
| `Titles.TrimUnique` | functional-samples/tutorial.frequently-tabs-manager/popup.js:66 | any piece `s[i..j]` with only white space around it and none at its own ends is exactly what `trim()` returns |
| `Titles.DisplayTitle` | functional-samples/tutorial.frequently-tabs-manager/popup.js:66 | the shown title is no longer than the title, contains no '-' and has no white space at either end |
| `Titles.DisplayTitleUnique` | functional-samples/tutorial.frequently-tabs-manager/popup.js:66 | the shown title is the part before the first '-' with white space trimmed from both ends: any piece of that part with only white space around it and none at its ends is the result |
| `Titles.DisplayTitleIdempotent` | functional-samples/tutorial.frequently-tabs-manager/popup.js:66 | shortening a shortened title changes nothing |
| `Rendering.Items` | functional-samples/tutorial.frequently-tabs-manager/popup.js:64-75 | one item per tab, in order, each showing the tab's display title and pathname and activating that tab on a click |
| `Rendering.Lists` | functional-samples/tutorial.frequently-tabs-manager/popup.js:58-77 | one list per key, in key order, headed by that key and holding exactly that key's items, one per tab of its array, in array order |
| `Rendering.GenerateLists` | functional-samples/tutorial.frequently-tabs-manager/popup.js:54-79 | one list per property in `Object.entries` order, headed by the hostname; the k-th item of a list shows the display title and pathname of the k-th tab of that hostname's array and activates that tab |
| `Rendering.AllTabsOfLists` | functional-samples/tutorial.frequently-tabs-manager/popup.js:58-75 | the tabs behind the items, list after list, are the object's arrays read in key order |
| `Rendering.ListsShowEveryTabOnce` | functional-samples/tutorial.frequently-tabs-manager/popup.js:58-76 | the rendered lists are headed by distinct hostnames in key order, and the items' tabs, list after list, are a permutation of the input tabs |
| `TabGroups.TabIds` | functional-samples/tutorial.frequently-tabs-manager/popup.js:97 | `tabs.map(({ id }) => id)` has one id per tab, position by position |
| `TabGroups.Slice` | functional-samples/tutorial.frequently-tabs-manager/popup.js:101 | `String.prototype.slice` for non-negative indices: the characters from start to end, each clamped to the length, and never longer than the string |
| `TabGroups.GroupTitle` | functional-samples/tutorial.frequently-tabs-manager/popup.js:101 | `hostname.slice(0, 5)` is the prefix of the hostname of length min(5, length of the hostname) |
| `TabGroups.GroupTabsByHostName` | functional-samples/tutorial.frequently-tabs-manager/popup.js:95-106 | it throws exactly when the hostname is not a property; it makes no call exactly when the array is empty; otherwise it passes the array's ids in order, a title of at most five characters that prefixes the hostname, purple and collapsed |
| `TabGroups.GroupDecisionForHost` | functional-samples/tutorial.frequently-tabs-manager/popup.js:95-106 | on an object built by groupTabsByFreqSite, it throws exactly for a hostname no tab has and never skips the call; the ids are those of exactly the tabs with that hostname, in input order |
| `TabGroups.GroupButtonGroupsItsHost` | functional-samples/tutorial.frequently-tabs-manager/popup.js:61-63 | each distinct hostname gets a rendered list, and that list's group button leads to a grouping call, never to the throw or the skip |

## Left out

- `getAllTabs` and `chrome.tabs.query` with the `freqSites` URL patterns
  (popup.js:15-25) are not modelled. The browser does the pattern
  matching, so the tab list is an input of every operation.
- `new URL(...)` is kept abstract (popup.js:36-37, 67). Hostname and
  pathname are parameters, so URL parsing is not modelled. A `TypeError`
  from an unparsable URL is not modelled either. The queried tabs all
  match `https://` patterns.
- The model treats the object `freqSiteTabs` as a plain map. A hostname
  that names an `Object.prototype` member (`constructor`, `__proto__`,
  `toString`, ...) would make `!freqSiteTabs[hostname]` false, and then
  `push` would throw. That case is not modelled, because the two query
  patterns only admit the hosts `twitter.com` and `developer.chrome.com`.
- The model assumes that `Object.entries` walks keys in insertion order.
  JavaScript lists integer-like keys first. A parsed hostname is never
  integer-like, because an all-digit host becomes a dotted IPv4 address.
- The model treats characters as Unicode code points. JavaScript strings
  are UTF-16 code units. Every code point that `trim()` removes is in the
  Basic Multilingual Plane, and parsed hostnames are ASCII. So `trim()`
  and `slice(0, 5)` behave the same in both representations.
- `Tab.id` is modelled as an always-present integer. The extension API
  declares the id optional.
- The DOM work in `generateLists` is not modelled (popup.js:55-78):
  template cloning, `querySelector`, `textContent`, event-listener wiring,
  the `Set` of list elements and the final `append`. Lists are values that
  record what each block shows and which tab or hostname its click
  handlers receive.
- The emoji-prefixed labels (popup.js:69-70) are not modelled. They are
  presentation only.
- `clickItemUrl` (popup.js:86-89) is not modelled. It consists only of two
  browser calls. An item records the tab passed to it.
- The effects of `chrome.tabs.group` and `chrome.tabGroups.update`
  (popup.js:99-104) are not modelled: the group id, the awaiting and any
  failure. Only whether the calls happen and with which arguments is
  modelled.
- The commented-out `Intl.Collator` sort (popup.js:43-45) is not modelled.
  It is dead code.
- `main` (popup.js:108-114) is not modelled. It only chains the operations
  above.
