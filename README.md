# URL shortener core, modelled in Dafny

This project models the core of a Laravel URL shortener:

- **The public redirect** (`GET /{slug}`). It looks up the active link with that slug and answers 404 when there is none. It answers 410 once the link's expiry has passed. Otherwise it logs one click, with the device, browser and OS classes detected from the user agent. It then increments the link's `click_count`, forgets the link's cached analytics, and redirects to the target.
- **Link management in `LinkController`.** Creation validates the request and takes the custom alias or a freshly drawn random slug that no row holds. Update and delete invalidate the cache; deleting a link takes its click rows with it.
- **`AnalyticsService`.** It builds a cached per-link report (scalar counts, the grouped facets, the top referrers and the recent clicks with masked IP addresses) and cached per-user dashboard counts, and it forgets both on request.
- **The `ShortLink` time predicates**, the `User` and `Role` role and permission checks, and the public profile page of `ProfileController::show`.

The database tables are sequences of rows held by the controller classes. The cache store is a class with a map from keys to entries with explicit expiry times. Every clock reading is a parameter.

Module layout:

- **Structure modules.** `Links`, `UserAgent`, `Analytics`, `AnalyticsService`, `LinkControl`, `Profiles` and `Accounts` follow the program's structure.
- **Helper modules.** `Wrappers`, `Text` (case-insensitive search, `explode`/`implode`), `Seqs` (search, distinct, a descending sort by key) and `Grouping` (the `GROUP BY … ORDER BY … LIMIT` shape) are shared helpers.

Behaviours of the code worth noting:

- An inactive link answers 404, not 410. The `is_active` filter is part of the lookup, so an inactive, expired link is "not found".
- Expiry is strict: `isPast` holds only after the expiry instant. At the instant itself the redirect still serves the link, while the profile page (`expires_at > now`) already hides it.
- The redirect looks up `slug` only. A custom alias is reachable only because `store` uses it as the slug; the redirect does not look aliases up separately.
- An iPhone user agent ("… like Mac OS X") is reported as macOS, never iOS: the macOS test comes first. An Android user agent that also names Linux (as Chrome's does) and no Windows or Mac marker is reported as Linux; one without "Linux" is reported as Android.
- A request without a user agent makes the detectors raise a type error (their parameter is a non-null `string`). No click row is written and nothing changes. The model returns `ServerError`; it does not fill in defaults.
- `maskIP` returns an address it cannot split by dots or colons unchanged, not "Unknown". Only null, `""` and `"0"` become "Unknown".

## Model

| member | source | states |
|---|---|---|
| Links.NoExpiryNeverExpires | app/Models/ShortLink.php:51-54 | a link with no `expires_at` is never expired |
| Links.ExpiredIffPast | app/Models/ShortLink.php:51-54 | expired iff an expiry is set and lies strictly before now; not expired at the expiry instant |
| Links.ExpiryIsPermanent | app/Models/ShortLink.php:51-54 | once expired, a link stays expired at every later time |
| Links.ScheduledIffFuture | app/Models/ShortLink.php:56-59 | scheduled iff a start time is set and lies strictly after now; not scheduled at the start instant |
| Links.PredicatesReadOwnTimestamp | app/Models/ShortLink.php:51-59 | each predicate depends only on its own timestamp and the clock |
| Links.RandomSlugRoutable | routes/web.php:60 | every non-empty slug of letters and digits matches the redirect route's pattern |
| Links.UnderscoreAliasUnroutable | app/Http/Controllers/LinkController.php:61 | an alias that `alpha_dash` accepts but that holds `_` never matches the redirect route |
| Links.FindActiveBySlug | app/Http/Controllers/LinkController.php:145-147 | a found row has the slug and is active; none found means no active row has the slug |
| Links.FindById | app/Http/Controllers/LinkController.php:129 | a found row has the key; none found means no row has it |
| Links.ClicksOf | app/Models/ShortLink.php:41-44 | the link's rows are exactly the log rows with its id |
| Links.ClicksOfCount | app/Models/ShortLink.php:41-44 | the link's clicks hold each of its log rows as often as the log does, and nothing else |
| Links.ClicksOfAppend | app/Http/Controllers/LinkController.php:170-179 | a new row joins its own link's clicks and no other link's |
| Links.WithoutLink | database/migrations/2025_10_16_082934_create_click_logs_table.php:13 | the cascade keeps exactly the rows of the other links |
| Links.WithoutLinkCount | database/migrations/2025_10_16_082934_create_click_logs_table.php:13 | the cascade keeps each other link's row as often as the log holds it, and none of the deleted link's |
| Links.ClicksOfWithoutLink | database/migrations/2025_10_16_082934_create_click_logs_table.php:13 | after the cascade, the deleted link has no clicks and every other link keeps its own |
| UserAgent.DeviceIsFirstMatch | app/Http/Controllers/LinkController.php:197-208 | `detectDevice` equals the first-match reading of its keyword table; the result is mobile, tablet or desktop |
| UserAgent.BrowserIsFirstMatch | app/Http/Controllers/LinkController.php:213-232 | `detectBrowser` equals the first-match reading of its table; the result is one of the six names |
| UserAgent.OsIsFirstMatch | app/Http/Controllers/LinkController.php:237-256 | `detectOS` equals the first-match reading of its table; the result is one of the six names |
| UserAgent.DeviceClasses | app/Http/Controllers/LinkController.php:197-208 | mobile iff a mobile keyword occurs; tablet iff "tablet" occurs and no mobile keyword does |
| UserAgent.IPadIsMobile | app/Http/Controllers/LinkController.php:199-205 | an iPad user agent is classed mobile; the tablet rule's `ipad` never decides |
| UserAgent.ChromeBeforeSafari | app/Http/Controllers/LinkController.php:218-226 | a user agent naming Chrome and Safari, but not Edge, is Chrome |
| UserAgent.AndroidReportsLinux | app/Http/Controllers/LinkController.php:245-250 | an Android user agent that names Linux, but not Windows or Mac, is reported as Linux |
| UserAgent.MacOSXReportsMacOS | app/Http/Controllers/LinkController.php:239-244 | any "Mac OS X" user agent without "Windows" is macOS |
| UserAgent.IPhoneReportsMacOS | app/Http/Controllers/LinkController.php:242-253 | an iPhone user agent saying "like Mac OS X" is macOS, never iOS |
| UserAgent.CaseIsIgnored | app/Http/Controllers/LinkController.php:197-256 | lower-casing the user agent changes none of the three classes |
| UserAgent.EmptyUserAgent | app/Http/Controllers/LinkController.php:197-256 | an empty user agent gets desktop, Unknown, Unknown |
| Grouping.GroupBySpec | app/Services/AnalyticsService.php:65-68 | every group row counts the occurrences of its value; no value has two rows; every value has one |
| Grouping.RankedSpec | app/Services/AnalyticsService.php:63-73 | at most `limit` rows, keys never increasing, rows counted and distinct, a missing value only when the limit cut it off |
| Analytics.FacetSpec | app/Services/AnalyticsService.php:63-117 | each facet has at most its limit of rows and counts never increase; each row counts the clicks with its non-null value; no value appears twice; a value is missing only when the facet is full of values with at least as many clicks |
| Analytics.DeviceFacetComplete | app/Services/AnalyticsService.php:78-87 | the unlimited device facet has a row for every device type a click carries |
| Analytics.ClicksByDateSpec | app/Services/AnalyticsService.php:42-58 | days strictly ascending; each row counts its day's clicks in the window (at least one); every day with a click in the window has a row |
| Analytics.EmptyReferrerNeverMatches | app/Services/AnalyticsService.php:126-127 | an empty referrer is never grouped |
| Analytics.ReferrerRows | app/Services/AnalyticsService.php:132-136 | one row per group, in order, with the host form, the raw referrer and the count |
| Analytics.TopReferrersSpec | app/Services/AnalyticsService.php:122-138 | at most ten rows, counts never increasing; each raw referrer is non-empty, counted exactly, shown by its parsed host or as given, and distinct; a referrer some click carries is missing only when ten referrers with at least as many clicks fill the list |
| Analytics.MaskFalsy | app/Services/AnalyticsService.php:178-180 | null, "" and "0" are shown as "Unknown" |
| Analytics.MaskDotted | app/Services/AnalyticsService.php:182-187 | with four dot parts, the masked address splits into the first three parts and "xxx" |
| Analytics.MaskReplacesLastPart | app/Services/AnalyticsService.php:182-187 | with four dot parts, the address is its parts joined, and the masked address is the same join with only the fourth part replaced by "xxx" |
| Analytics.MaskColon | app/Services/AnalyticsService.php:190-195 | otherwise, with a colon: the same number of groups, all but the last unchanged, the last "xxxx" |
| Analytics.MaskOther | app/Services/AnalyticsService.php:197 | anything else is returned as stored |
| Analytics.MaskExample | app/Services/AnalyticsService.php:182-187 | 203.0.113.42 is shown as 203.0.113.xxx |
| Analytics.ShownSpec | app/Services/AnalyticsService.php:149-159 | null columns become "Unknown"; a falsy referrer becomes "Direct", so no shown referrer is falsy; the IP is masked; city, id and time pass through |
| Analytics.ShownAll | app/Services/AnalyticsService.php:149-159 | one shown row per fetched row, in order |
| Analytics.RecentClicksSpec | app/Services/AnalyticsService.php:143-161 | min(limit, clicks) rows, newest first; the rows show a sub-multiset of the link's clicks, so no click appears twice unless stored twice; a click left out is no newer than any shown |
| Analytics.LinkCountsOrdered | app/Services/AnalyticsService.php:23-27 | today ≤ last 7 days ≤ since a month ago ≤ total, and distinct IPs ≤ total |
| Analytics.UserClicks | app/Services/AnalyticsService.php:208-210 | exactly the log rows whose link is owned by the user |
| Analytics.UserCountsBounded | app/Services/AnalyticsService.php:203-231 | today ≤ calendar week ≤ total, and month ≤ total |
| Analytics.WeekMayExceedMonth | app/Services/AnalyticsService.php:216-222 | under a valid clock, the calendar-week count can exceed the `whereMonth` count |
| Analytics.MonthIgnoresYear | app/Services/AnalyticsService.php:220-222 | under a valid clock and a month number that repeats every year, a click one year old counts in the user's month but not in the link report's rolling month |
| Analytics.UserClicksCount | app/Services/AnalyticsService.php:208-210 | the user's clicks hold each click on the user's links as often as the log does, and nothing else |
| AnalyticsService.Store.Remember | app/Services/AnalyticsService.php:19 | a live entry is returned with the store unchanged; otherwise the computed value is stored until now + ttl and returned |
| AnalyticsService.Store.Forget | app/Services/AnalyticsService.php:238 | the key is gone and every other entry stays |
| AnalyticsService.ClearLinkCache | app/Services/AnalyticsService.php:236-240 | exactly the link's 30-day and 7-day reports are forgotten |
| AnalyticsService.ClearUserCache | app/Services/AnalyticsService.php:245-248 | exactly the user's stats are forgotten |
| AnalyticsService.GetLinkAnalytics | app/Services/AnalyticsService.php:15-37 | a hit returns the stored report unchanged; a miss returns the report over the link's clicks and stores it for ten minutes |
| AnalyticsService.GetUserStats | app/Services/AnalyticsService.php:203-231 | a hit returns the stored stats; a miss returns the stats over the user's clicks and stores them for five minutes |
| AnalyticsService.ServedFromCache | app/Services/AnalyticsService.php:17-19 | a second request within ten minutes gets the first report, even when the log changed in between, provided no `clearLinkCache` for the link ran (the redirect runs it, so for the 7- and 30-day windows only rows written by other paths stay unseen) |
| AnalyticsService.OtherWindowsSurvive | app/Services/AnalyticsService.php:236-240 | a report for any window other than 7 or 30 days survives the invalidation unchanged |
| LinkControl.ClickKeepsTables | app/Http/Controllers/LinkController.php:153-155 | logging a click and incrementing `click_count` keeps the tables valid, and the count equals the link's rows |
| LinkControl.ClickKeepsCounts | app/Http/Controllers/LinkController.php:153-155 | each link's `click_count` still equals its number of click rows |
| LinkControl.ClickKeepsBelong | app/Http/Controllers/LinkController.php:170-171 | every click row still refers to a stored link |
| LinkControl.NewIdHasNoClicks | database/migrations/2025_10_16_082933_create_short_links_table.php:21 | a new link has no click rows, matching its default count of 0 |
| LinkControl.Without | app/Http/Controllers/LinkController.php:137 | the table without the deleted row, others in order |
| LinkControl.DeleteKeepsCounts | app/Http/Controllers/LinkController.php:137 | after delete and cascade, every remaining count equals its rows |
| LinkControl.DeleteKeepsBelong | database/migrations/2025_10_16_082934_create_click_logs_table.php:13 | after the cascade, every remaining click refers to a remaining link |
| LinkControl.DeleteKeepsTables | app/Http/Controllers/LinkController.php:129-141 | deleting a link with its clicks keeps the tables valid |
| LinkControl.StoreKeepsTables | app/Http/Controllers/LinkController.php:70-79 | appending a link with a fresh id and free slug keeps the tables valid |
| LinkControl.UpdateKeepsTables | app/Http/Controllers/LinkController.php:120 | updating target, expiry or activity keeps the tables valid |
| LinkControl.Updated | app/Http/Controllers/LinkController.php:111-120 | the update sets the new target, applies the given expiry and activity (keeping each one left out), and keeps id, slug, alias, owner, count, schedule and creation time |
| LinkControl.FindsNewLink | app/Http/Controllers/LinkController.php:68-79 | the lookup by a new active link's free slug finds that link |
| LinkControl.RedirectStatuses | app/Http/Controllers/LinkController.php:145-151 | 404 iff no row with the slug is active; a redirect implies an active, unexpired row with the slug |
| LinkControl.InactiveIsNotFound | app/Http/Controllers/LinkController.php:145-147 | with unique slugs, an inactive link's slug finds nothing, whatever its expiry |
| LinkControl.LinkController.LogClick | app/Http/Controllers/LinkController.php:166-180 | with a user agent, one row is appended with the request fields, detected classes and time; without one, nothing changes |
| LinkControl.LinkController.Redirect | app/Http/Controllers/LinkController.php:143-161 | 404 or 410 with no change; error with no change; otherwise redirects to the target, appends one click, increments only that count, and forgets the 30- and 7-day reports; the tables stay valid |
| LinkControl.LinkController.Visit | app/Http/Controllers/LinkController.php:153-158 | the click, the increment and the cache invalidation, keeping the tables valid |
| LinkControl.StatsStaleAfterRedirect | app/Http/Controllers/LinkController.php:143-161 | the redirect forgets no user stats, so within five minutes of computing them the dashboard shows the counts from before a logged click |
| LinkControl.LinkController.GenerateUniqueSlug | app/Http/Controllers/LinkController.php:185-192 | returns the first drawn slug no row holds, of the requested length |
| LinkControl.LinkController.Store | app/Http/Controllers/LinkController.php:57-79 | invalid requests change nothing; otherwise appends an active link with no clicks, whose slug is the alias or a fresh random six-character slug, with the next link id (the id counter advances by one, the click counter stays), and the lookup finds it |
| LinkControl.LinkController.Update | app/Http/Controllers/LinkController.php:107-127 | missing, then forbidden, then invalid, each with no change; otherwise the link is updated and its reports forgotten |
| LinkControl.LinkController.Destroy | app/Http/Controllers/LinkController.php:129-141 | missing or forbidden with no change; otherwise the link and its clicks are removed, its reports and the acting user's stats forgotten |
| Accounts.InArrayIsMembership | app/Models/User.php:71 | the scan finds a value iff it is an element of the list |
| Accounts.AtMostOneRole | app/Models/User.php:54-67 | at most one role check holds; none without a role; one holds iff the role is admin, customer or guest |
| Accounts.UserPermissionIsMembership | app/Models/User.php:69-72 | a user has a permission iff the column is set and lists it; null or empty grants nothing |
| Accounts.RolePermissionIsMembership | app/Models/Role.php:19-22 | a role has a permission iff the column is set and lists it; null or empty grants nothing |
| Accounts.RolePermissionReadsOnlyList | app/Models/Role.php:19-22 | two roles with the same list agree on every permission |
| Accounts.UserAndRoleAgree | app/Models/User.php:69-72 | a user and a role with the same list grant the same permissions |
| Profiles.ListedLinks | app/Http/Controllers/ProfileController.php:21-26 | exactly the owner's active links without expiry or expiring after now |
| Profiles.ListedLinksCount | app/Http/Controllers/ProfileController.php:21-26 | the filter keeps each listed row as often as the table holds it, and nothing else |
| Profiles.VisibleLinksSpec | app/Http/Controllers/ProfileController.php:21-28 | the page lists exactly the listed links, each as often as stored, newest first |
| Profiles.HiddenAtExpiryButRedirects | app/Http/Controllers/ProfileController.php:24-25 | at its expiry instant a link is hidden from the profile but not yet expired for the redirect |
| Profiles.ListedIffUnexpired | app/Http/Controllers/ProfileController.php:21-26 | away from that instant, an active link is listed iff it is not expired |
| Profiles.ProfileController.Show | app/Http/Controllers/ProfileController.php:10-36 | unknown slug or inactive owner is 404 with no change; otherwise returns the visible links and increments only that profile's views |

## Left out
- Requests are modelled after type coercion. The source rejects a malformed `expires_at` date (store and update) or a non-boolean `is_active` (update) with a validation error and no change. Such an input cannot be represented in `StoreRequest` or `Changes`, so that error path is not modelled.
- I/O, rendering and routing glue are not modelled: Inertia pages, flash messages, redirect responses beyond their target, and the index, create, show and edit actions.
- `QRCodeController`, workspaces, profile editing and the seeders are outside this model.
- Concurrency is not modelled. Two requests that pass the same uniqueness check cannot interleave here, and the cache has no locking.
- `parse_url` is a parameter `parseHost`. The model does not parse URLs itself.
- The `url` validation rule is a parameter `isUrl`. The policies behind `authorize` are a parameter `allowed`.
- `Str::random` is the sequence `draws` of its successive results. Randomness is not modelled.
- LinkControl.LinkController.GenerateUniqueSlug requires that some draw is free, and Store requires it when no alias is given. The source loops until one is; the model does not capture a loop that never ends.
- Calendar arithmetic is left to the clock. `now()->subMonth()`, `startOfWeek` and `endOfWeek` are readings of the clock with bounds (`ValidClock`), and `whereMonth`'s month number is a parameter `monthOf`.
- `diffForHumans` keeps the timestamp instead of its English wording.
- The cache store holds each key family (`analytics:link:…` and `stats:user:…`) as its own map keyed by a datatype. The key strings themselves are not built.
- AnalyticsService.Store.Remember takes the closure's value instead of the closure. The cached closures are pure reads of the tables, so only their result matters.
- Latitude, longitude, country and city are never filled by `logClick`; the model writes no geolocation.
- Title, description, category and the UTM and QR settings of a link are not modelled. Their validation cannot make `store` or `update` fail except by length limits, which are left out.
- `in_array`'s loose comparison is modelled as exact string equality. Permission lists are lists of strings, so the two agree except on numeric strings.
- Case-insensitive matching folds ASCII letters only. `alpha_dash` is modelled on ASCII letters and digits, not all Unicode letters.
- The order of rows with equal counts (SQL leaves it open) is one fixed order here. No contract depends on it.
- Integer widths are unbounded. Counts and ids do not wrap around.
