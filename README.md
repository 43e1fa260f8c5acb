# website-monitor: a Dafny model of the monitoring pass

This project models the decision logic of `monitor.py`, a single-run website monitor. One run
turns the `WEBSITES` configuration into a list of pages to check, fetches each page, hashes its
content, compares the hash with the one stored by the previous run, reports the pages whose
hash changed, and saves a new state. Everything the program delegates to libraries, the network
or the clock is a parameter of the model:

- `fetch(url, selector)` stands for `get_page_content`; `None` is a failed fetch.
- `pages(url)` gives the `href` values that `discover_links` would read from the page at `url`; `None` is a failed fetch or parse.
- `resolve(pageUrl, href)` stands for `urljoin`; `None` is a call that raises.
- `hash` stands for SHA-256 of the content; it is uninterpreted.
- `now` is the timestamp written into every record of the run.

Modules, one per part of `monitor_websites`:

- `Text` (text.dfy): Python's `in` on strings, `startswith`, `split('/')[-1]` and `[:n]`.
- `Discovery` (discovery.dfy): the filter and deduplication loop of `discover_links`.
- `Targets` (expansion.dfy): expansion of the configuration into `urls_to_check`.
- `Detection` (detection.dfy): the check loop that fills `current_data` and `changes_detected`.
- `Notification` (notification.dfy): the message built from the changes.
- `Monitor` (monitor.dfy): one whole run, from the previous state to the saved state and the notification.
- `Wrappers` (wrappers.dfy): the `Option` type.

Each loop of the source is a method with a `while` loop. Each method is proved equal to a
specification function. The properties are proved about those functions as lemmas.

Points of `monitor.py` that the model keeps as written:

- The pattern test at monitor.py:100 sees the resolved href when the href starts with '/', and the href itself otherwise.
- A record holds the name, the hash, the check time and the selector; the content itself is not stored.
- The message holds the name, the URL and the previous check time of each change.
- An exception inside the loop of `discover_links` returns the empty list for the whole page (monitor.py:105-107). This happens when `urljoin` raises, or when the pattern is `None` and `None in href` raises.

## Model

| member | source | states |
|---|---|---|
| `Text.ContainsIff` | monitor.py:100 | the substring test used for `link_pattern in href` holds exactly when the pattern occurs at some index of the href (the empty pattern always matches) |
| `Text.LastSegmentIsSuffix` | monitor.py:155 | `split('/')[-1]` yields the longest suffix of the URL without '/': it is a suffix, holds no '/', and is preceded by '/' unless it is the whole URL |
| `Discovery.DiscoverLinks` | monitor.py:79-107 | the loop returns the deduplicated accepted hrefs of the page, and the empty list when the page could not be fetched or parsed, the pattern is `None`, or some href starting with '/' fails to resolve |
| `Discovery.DedupElements` | monitor.py:100-101 | deduplication keeps exactly the elements of its input |
| `Discovery.DedupNoDuplicates` | monitor.py:100-101 | the `href not in links` test leaves no link twice |
| `Discovery.DedupFirstOrder` | monitor.py:100-101 | links come in the order of their first occurrence among the accepted hrefs |
| `Discovery.AcceptedMembers` | monitor.py:94-100 | an href is accepted exactly when its absolute form (resolved if it starts with '/', verbatim otherwise) contains the pattern |
| `Discovery.DiscoveredLinks` | monitor.py:89-101 | the returned links have no repeats and all contain the pattern; when every href resolves they are exactly the accepted absolute hrefs, and an href not starting with '/' that contains the pattern is returned verbatim; when one fails to resolve none are returned |
| `Discovery.DiscoveredDistinctMatching` | monitor.py:89-107 | on every path, including the exception paths, the returned links have no repeats and each contains the (non-`None`) pattern |
| `Discovery.DiscoveredOrder` | monitor.py:89-101 | the returned links keep the first-occurrence order of the accepted hrefs |
| `Targets.DiscoveredNameShape` | monitor.py:155 | a discovered page is named the site name, " - ", then exactly the first min(50, length) characters of the last path segment of its URL, which hold no '/' |
| `Targets.DiscoverSiteTargets` | monitor.py:147-157 | a discovering site yields one target per discovered link, in discovery order |
| `Targets.ExpandTargets` | monitor.py:144-164 | the loop over `WEBSITES` builds exactly the expansion of the configuration |
| `Targets.ExpansionAppend` | monitor.py:146-164 | expansion follows configuration order: the targets of two configurations one after the other are their targets one after the other |
| `Targets.SiteTargetsSpec` | monitor.py:146-164 | a non-discovering site yields exactly one target with its own url, name and selector; a discovering site yields one target per discovered link with distinct URLs containing the pattern, each named `DiscoveredName` of the site name and its URL, and the site's selector |
| `Detection.CheckTargets` | monitor.py:168-200 | the check loop produces exactly the new state and the change list of the targets against the previous state |
| `Detection.RecordedKeys` | monitor.py:176-186 | the new state's keys are exactly the URLs of targets whose fetch succeeded; failed targets get no record |
| `Detection.RecordedValues` | monitor.py:181-186 | the record of a URL is the fresh record (name, hash of the content, check time, selector) of the last successful target with that URL |
| `Detection.RecordedFrom` | monitor.py:181-186 | every record of the new state was written by a successful target with that URL |
| `Detection.StaleEntriesDropped` | monitor.py:140-186 | a URL of the previous state that no target checks is not in the new state, because the new state starts empty |
| `Detection.DetectedExactly` | monitor.py:189-195 | the change list is the changed targets in target order: the k-th change is that of the k-th target whose URL was stored with a different hash, with the previous check time or 'Unknown' |
| `Detection.NoChangeOnFirstObservation` | monitor.py:189-200 | every change is about a URL that was in the previous state |
| `Detection.ChangeReportedIff` | monitor.py:189-198 | a change is reported for a URL if and only if a target with that URL was fetched, was stored, and hashes differently from the stored hash |
| `Detection.NoChangesIff` | monitor.py:189-203 | the change list is empty exactly when no target's fetched content hashes differently from a stored hash |
| `Detection.RerunReportsNothing` | monitor.py:176-198 | checking the same targets with the same contents against the state just saved reports no change |
| `Detection.RecordedAtAnotherTime` | monitor.py:181-186 | checking the same targets later saves the same URLs with the same names, hashes and selectors; only the check time differs |
| `Notification.MessageEmptyIff` | monitor.py:204-208 | the message is empty exactly when there are no changes |
| `Notification.BuildMessage` | monitor.py:204-208 | the accumulating loop produces the concatenation of one block per change |
| `Notification.MessageAppend` | monitor.py:205-208 | the message of two change lists is the message of the first followed by that of the second |
| `Notification.MessageLists` | monitor.py:205-208 | every change has its block (`**name**`, the link line, the last-check line) in the message, between the blocks of the changes before and after it |
| `Monitor.NotificationFor` | monitor.py:203-213 | a notification is produced if and only if there are changes, and it is their non-empty message |
| `Monitor.MonitorWebsites` | monitor.py:137-216 | one run saves exactly the records of the fetched targets, whatever the changes, and notifies the message of the changes only when there are some |
| `Monitor.SavedStateKeys` | monitor.py:140-216 | the saved state holds a URL if and only if a target with that URL was fetched this run; previous URLs survive only if still targeted |
| `Monitor.SecondRunIsQuiet` | monitor.py:168-216 | a second run over unchanged pages sends no notification and saves the same URLs with the same hashes |

## Left out

- HTTP requests, the timeout and the user-agent header: each fetch is an input, and `None` is any failure.
- BeautifulSoup parsing, `select_one`, `get_text` and the whole-page fallback for a missing selector: the fetched text and the href list are inputs.
- SHA-256: an uninterpreted `hash` parameter, so nothing depends on collision resistance.
- `urljoin`: an uninterpreted `resolve` parameter. Its `None` result stands for a call that raises; which inputs make `urljoin` raise is not modelled.
- Loading and saving `monitoring_data.json`: the previous state is an input and the saved state an output. The key order of the saved JSON object is not modelled, because a Dafny map has no order.
- The Discord webhook POST and the `DISCORD_WEBHOOK_URL` lookup: the model stops at the notification text it would send.
- `print` logging.
- `datetime.now()`: one timestamp `now` serves every record of a run. The source reads the clock once per target.
- A stored record without a `hash` key raises `KeyError` in the source. The model's records always carry a hash, so this crash is not modelled.
- A stored `last_checked` holding JSON null is rendered "None" by the source. The model has only a present or an absent check time.
- `Detection.RerunReportsNothing`: requires that targets with the same URL have the same selector. Without this, one URL can be fetched twice with different contents, and the source then reports a change on every run.
- `Monitor.SecondRunIsQuiet`: carries the same condition, for the same reason.
