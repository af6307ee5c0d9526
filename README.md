# Dashboard session gates, bulk-email form and dashboard aggregation

A model of the decision logic inside the React pages of the mentor/admin dashboard
(`mi-dashboard`). The model covers four parts:

- **Session gates.** There are two `DashboardLayout` components.
  - `components/DashboardLayout.tsx` has a three-state `authState` (`checking`, `authorized`, `unauthorized`) and redirects with `router.replace('/')`.
  - `mi-web/components/DashboardLayout.tsx` has a boolean `isLoading` with two early returns that redirect with `router.push('/')`.
  - Both are modelled as classes whose mount effect is a method. A separate module proves that the two accept exactly the same stored sessions: a truthy `token` and a stored `role` equal to the required one.
- **Bulk-email form** (`app/admin/email/page.tsx`).
  - `handleSendEmail` runs its two checks in a fixed order, parses the comma-separated recipients with `split(',').map(trim).filter(e => e)` and posts the request.
  - When the reply settles, the handler records the result, clears the form only if `success_count > 0`, and always resets `sending`.
  - The page is a class whose fields are the component's `useState` values.
  - `trim` and `split` are written out in the `Text` module. Their properties are proved there: the pieces of a split join back to the input, and a trimmed string has no whitespace at either end.
- **Admin dashboard** (`mi-web/app/admin/page.tsx`).
  - `loadData` normalises the four response shapes, counts the stats cards, keeps the first five users, and sorts the news newest first before keeping five.
  - `news.sort` is modelled in place on an array. It is an insertion sort proved equal to a stable functional sort. The sort result is also proved to be newest first and a permutation of the input.
- **Mentor dashboard** (`mi-web/app/mentor/page.tsx`): the same news pipeline, the dashboard body stored as is, and the first five of the mentor's users. Both dashboards share `getImpactColor`, modelled as a case-insensitive mapping.

Inputs take the place of I/O:

- The settled promises become `Fetched` values: `Rejected`, or `Resolved` with a body.
- `localStorage` becomes a `Storage` record.
- Router calls and alerts are appended to sequences held by the classes.
- Timestamps are already-parsed integers.

Where a page would throw, the model stops at the same point as the `try` block, and the state already set stays. This happens when a list operation meets a body that is an object without the expected key, or when a property is read on `null`. `loading` or `sending` is then reset as the `finally` block does.

Neither layout retries or waits before redirecting, and neither does the model.

## Model

| member | source | states |
|---|---|---|
| Layout.Decide | components/DashboardLayout.tsx:26-33 | the effect never leaves the gate in `checking`; it authorizes iff the token is truthy and the stored role is the required one |
| Layout.DashboardLayout.constructor | components/DashboardLayout.tsx:13 | the gate starts in `checking` with no redirect issued |
| Layout.DashboardLayout.CheckOnMount | components/DashboardLayout.tsx:15-35 | the one run of the mount effect (only from `checking`) sets `authState` to the decision and issues exactly one `replace('/')` iff it refused, keeping the invariant "redirected iff unauthorized" |
| Layout.DashboardLayout.Render | components/DashboardLayout.tsx:37-60 | children are shown iff `authorized`; `checking` and `unauthorized` both show the spinner |
| Layout.Mount | components/DashboardLayout.tsx:11-60 | a mount shows the dashboard iff the session holds the role, and otherwise shows the spinner and issues exactly one `replace('/')` |
| Layout.NoTokenSameAsWrongRole | components/DashboardLayout.tsx:26-33 | a missing token and a role mismatch give the same `unauthorized` outcome |
| MiLayout.Check | mi-web/components/DashboardLayout.tsx:28-41 | the token check comes before the role check; the three outcomes are exactly: no truthy token, truthy token with a wrong role, and both good |
| MiLayout.DashboardLayout.constructor | mi-web/components/DashboardLayout.tsx:13 | `isLoading` starts true and no redirect is issued |
| MiLayout.DashboardLayout.RunEffect | mi-web/components/DashboardLayout.tsx:15-42 | each run appends one `push('/')` iff a check fails, and `isLoading` becomes false only when both pass (never true again) |
| MiLayout.DashboardLayout.Render | mi-web/components/DashboardLayout.tsx:44-59 | children are shown iff `isLoading` is false |
| MiLayout.Mount | mi-web/components/DashboardLayout.tsx:11-60 | a mount shows the dashboard iff the session holds the role, and otherwise keeps the spinner and issues exactly one `push('/')` |
| MiLayout.MentorIdIgnored | mi-web/components/DashboardLayout.tsx:18 | `mentor_id` never changes the outcome |
| GateAgreement.DecisionsAgree | components/DashboardLayout.tsx:26 | the three-state gate authorizes iff the flag gate gets past both checks of mi-web/components/DashboardLayout.tsx:28-38, and refuses otherwise |
| GateAgreement.MountBoth | components/DashboardLayout.tsx:26-60 | on the same stored session both layouts render the same view, and each issues one redirect to `/` exactly when it refuses |
| Common.Min | mi-web/app/admin/page.tsx:58 | the smaller of two numbers, used for the length of `slice(0, 5)` |
| Common.TopFive | mi-web/app/admin/page.tsx:58 | `slice(0, 5)` gives the first `min(5, n)` elements in their original order |
| Api.ArrayOrKey | mi-web/app/admin/page.tsx:30-31 | a bare array or the keyed list is used as is; `null` and an object without the key give `[]` |
| Api.KeyOrSelf | mi-web/app/admin/page.tsx:29 | the keyed list, else a bare array, else `[]` for `null`; an object without the key is the body itself, on which the next list operation throws (`None`) |
| Api.KeyOnly | mi-web/app/mentor/page.tsx:26 | reading `users` (else `[]`) throws only on a `null` body; an array or an object without the key gives `[]` |
| Api.CatchWith | mi-web/app/admin/page.tsx:23-25 | `.catch(() => fallback)`: a rejection becomes the fallback, a resolution keeps its body |
| Lists.Count | mi-web/app/admin/page.tsx:40 | `filter(p).length`, defined through `Filter`, never exceeds the list length |
| Lists.CountAppend | mi-web/app/admin/page.tsx:40-50 | counting is additive over concatenation |
| Lists.CountDisjoint | mi-web/app/admin/page.tsx:40-41 | two filters that no element passes together count at most the whole list together |
| AdminDashboard.CalculateStats | mi-web/app/admin/page.tsx:37-55 | the user total is the number of users; `active`, `pending` and `paid` are each at most the total; `active + pending` is at most the total; mentor and license counts are at most their totals; revenue is 0 |
| AdminDashboard.UsersOf | mi-web/app/admin/page.tsx:21-29 | a rejected users request aborts the whole load; otherwise the users are the `users` key, else the body itself, else `[]` |
| AdminDashboard.ListOrEmpty | mi-web/app/admin/page.tsx:23-31 | mentors and licenses, each fetched with `.catch(() => [])` and read with `Array.isArray(d) ? d : d?.key`, else `[]`: a failed request counts as `[]`; otherwise a bare array or the keyed list is used, and any other body gives `[]` |
| AdminDashboard.AdminDashboardPage.constructor | mi-web/app/admin/page.tsx:9-12 | the initial state: no stats, no users, no news, loading |
| AdminDashboard.AdminDashboardPage.LoadData | mi-web/app/admin/page.tsx:18-75 | after the load, `loading` is false; `stats` and `recentUsers` are set iff the users normalised to a list; `upcomingNews` is the five newest news entries iff the news normalised too; otherwise each keeps its old value |
| AdminDashboard.LoadedDashboard | mi-web/app/admin/page.tsx:37-69 | a completed load shows consistent counts, the first `min(5, n)` users in order, and at most five news entries, newest first, drawn from the fetched news |
| MentorDashboard.MentorDashboardPage.constructor | mi-web/app/mentor/page.tsx:9-12 | the initial state: `stats` null, no users, no news, loading |
| MentorDashboard.MentorDashboardPage.LoadData | mi-web/app/mentor/page.tsx:18-43 | `loading` ends false; `stats` is exactly the dashboard body once both required requests resolve; then the first five users, then the five newest news entries, each set only if the previous step did not throw |
| MentorDashboard.LoadWithoutNews | mi-web/app/mentor/page.tsx:23 | a failing news endpoint still loads stats and users and leaves the news panel empty |
| NewsFeed.SortKey | mi-web/app/admin/page.tsx:64-65 | the date the comparator reads: `event_time` when present, else `created_at` (no contract of its own; the sort lemmas are stated over it) |
| NewsFeed.InsertPermutes | mi-web/app/admin/page.tsx:62-67 | one insertion step adds exactly the inserted item to the multiset |
| NewsFeed.Insert | mi-web/app/admin/page.tsx:63-67 | one insertion step adds exactly one entry |
| NewsFeed.InsertKeepsOrder | mi-web/app/admin/page.tsx:62-67 | inserting into a newest-first list keeps it newest first |
| NewsFeed.SortIsNewestFirst | mi-web/app/admin/page.tsx:63-67 | the sorted news is non-increasing in `event_time` falling back to `created_at` |
| NewsFeed.SortPermutes | mi-web/app/admin/page.tsx:63-67 | the sorted news is a permutation of the fetched news |
| NewsFeed.SortNewestFirst | mi-web/app/admin/page.tsx:62-67 | the stable newest-first order keeps the number of entries (ordering and permutation are SortIsNewestFirst and SortPermutes) |
| NewsFeed.SortInPlace | mi-web/app/admin/page.tsx:62-67 | the in-place sort leaves the array equal to the stable newest-first order of its old contents |
| NewsFeed.InsertIntoPrefix | mi-web/app/admin/page.tsx:63-67 | one pass moves `a[i]` into the sorted prefix at the place `Insert` chooses and leaves the rest of the array alone |
| NewsFeed.InsertAt | mi-web/app/admin/page.tsx:63-67 | `Insert` places the item after every entry at least as new and before every strictly older one, so ties keep their order |
| NewsFeed.NewsOf | mi-web/app/mentor/page.tsx:23-29 | a failed news request gives no news; otherwise the news is the `news` key, else the body itself, else `[]` |
| NewsFeed.UpcomingNews | mi-web/app/admin/page.tsx:62-68 | `.sort(...).slice(0, 5)` shows `min(5, n)` entries (which ones is UpcomingNewsIsTopFive) |
| NewsFeed.UpcomingNewsIsTopFive | mi-web/app/admin/page.tsx:62-69 | the panel holds `min(5, n)` entries, newest first, drawn from the fetched news without duplication, and none is older than a fetched entry that was left out |
| NewsFeed.SortedPrefixIsTop | mi-web/app/mentor/page.tsx:30-36 | a prefix of a newest-first list is newest first, is a sub-multiset of the list, and no entry left out is newer than any entry kept |
| NewsFeed.ImpactColor | mi-web/app/admin/page.tsx:77-84 | `high`, `medium` and `low` in any letter case map to red, yellow and green; every other value, including a missing one, maps to gray (each case an if-and-only-if) |
| NewsFeed.ImpactColorIgnoresCase | mi-web/app/mentor/page.tsx:45-52 | two spellings with the same lower-case form get the same colour |
| AdminEmail.Validate | app/admin/email/page.tsx:40-49 | the send goes ahead iff subject and message are non-empty and, for a custom send, the recipients are not all whitespace; a missing subject or message is reported first, even when the recipients are blank |
| Lists.Map | app/admin/email/page.tsx:56 | `map` keeps the length |
| Lists.MapAt | app/admin/email/page.tsx:56 | the `i`-th element of `map(f)` is `f` of the `i`-th element |
| Lists.MapAppend | app/admin/email/page.tsx:56 | `map` distributes over concatenation |
| Lists.Filter | app/admin/email/page.tsx:56 | `filter` never lengthens a list |
| Lists.FilterKeeps | app/admin/email/page.tsx:56 | every kept element passes the test and comes from the input |
| Lists.FilterAppend | app/admin/email/page.tsx:56 | `filter` distributes over concatenation, so it keeps left-to-right order |
| Lists.FilterAll | app/admin/email/page.tsx:56 | a list whose elements all pass is kept whole |
| Lists.FilterNone | app/admin/email/page.tsx:56 | a list none of whose elements passes is filtered to nothing |
| AdminEmail.TrimAll | app/admin/email/page.tsx:56 | `.map(e => e.trim())` keeps one trimmed piece per comma-separated piece |
| AdminEmail.NonEmpty | app/admin/email/page.tsx:56 | `.filter(e => e)` never lengthens the list |
| AdminEmail.NonEmptyIsClean | app/admin/email/page.tsx:56 | filtering trimmed, comma-free pieces leaves only non-empty, trimmed, comma-free addresses |
| AdminEmail.Recipients | app/admin/email/page.tsx:56 | `split(',').map(trim).filter(e => e)` gives at most one address per comma-separated piece (cleanliness, order and round trip are the lemmas below) |
| AdminEmail.EmailList | app/admin/email/page.tsx:55-57 | `all_users` and `all_mentors` post an empty list whatever `toEmails` holds; `custom` posts the parsed addresses |
| AdminEmail.RecipientsAreClean | app/admin/email/page.tsx:56 | every parsed address is non-empty, has no whitespace at either end and no comma, and there are at most as many addresses as comma-separated pieces |
| AdminEmail.RecipientsAround | app/admin/email/page.tsx:56 | the addresses of `a + "," + b` are those of `a` followed by those of `b` (order is kept) |
| AdminEmail.RecipientsOfJoin | app/admin/email/page.tsx:56 | a non-empty list of clean addresses joined with commas parses back to the same list |
| AdminEmail.AllCleanOfPointwise | app/admin/email/page.tsx:56 | the pointwise cleanliness condition implies the front-to-back one used by the round-trip proof |
| AdminEmail.RecipientsOfJoinClean | app/admin/email/page.tsx:56 | the round trip by induction on the list |
| AdminEmail.RecipientsOfClean | app/admin/email/page.tsx:56 | a single clean address parses to itself |
| AdminEmail.CommasPassWithNoRecipients | app/admin/email/page.tsx:46-57 | a custom field holding only commas passes both checks yet parses to no address |
| AdminEmail.CommaIsNotWhitespace | app/admin/email/page.tsx:46 | a comma is not whitespace to `trim` |
| AdminEmail.SplitOfCommas | app/admin/email/page.tsx:56 | splitting a string of commas on commas gives only empty pieces |
| AdminEmail.RecipientsNonEmptyIff | app/admin/email/page.tsx:56 | at least one address is parsed iff the field holds a character that is neither whitespace nor a comma |
| AdminEmail.HasAddressCharIff | app/admin/email/page.tsx:56 | the recursive "has an address character" test agrees with its quantified reading |
| AdminEmail.NonEmptyTrimAll | app/admin/email/page.tsx:56 | some trimmed piece survives the filter iff some piece is not all whitespace |
| AdminEmail.SplitHasContent | app/admin/email/page.tsx:56 | some comma-separated piece is not all whitespace iff the string has an address character |
| AdminEmail.EmailPage.constructor | app/admin/email/page.tsx:15-22 | the initial form: custom send, empty fields, not sending, no result |
| AdminEmail.EmailPage.EditForm | app/admin/email/page.tsx:18-21 | the form setters replace the four form fields and nothing else |
| AdminEmail.EmailPage.HandleSendEmail | app/admin/email/page.tsx:40-64 | an incomplete form appends exactly the alert `Validate` names and changes nothing else (no post, `sending` and `sendResult` untouched); a complete one sets `sending`, clears `sendResult` and posts the request with `EmailList`, subject, message and send type, and the button is disabled while the request is in flight |
| AdminEmail.EmailPage.SettleSend | app/admin/email/page.tsx:66-79 | `sending` always ends false; a reply is recorded as the result, and a throw is recorded as its message or "Failed to send emails"; the three fields are cleared and the stats refreshed iff `success_count > 0`, and are left unchanged otherwise |
| AdminEmail.EmailPage.SendDisabled | app/admin/email/page.tsx:249 | the button is disabled exactly while a send is in flight or when the handler's first check would alert |
| AdminEmail.ValidFormEnablesButton | app/admin/email/page.tsx:249 | a form that passes the checks has a non-empty subject and message, so the button's own condition does not block it |
| Text.ListedIsIn | app/admin/email/page.tsx:46 | the whitespace lookup agrees with membership in the whitespace set |
| Text.AllWhitespaceAppend | app/admin/email/page.tsx:46 | a concatenation is all whitespace iff both parts are |
| Text.TrimStart | app/admin/email/page.tsx:56 | the result is a suffix of the input, everything removed is whitespace, and the result does not start with whitespace |
| Text.TrimEnd | app/admin/email/page.tsx:56 | the result is a prefix of the input, everything removed is whitespace, and the result does not end with whitespace |
| Text.Trim | app/admin/email/page.tsx:56 | `trim` never lengthens a string (its other properties are the lemmas below) |
| Text.TrimIsTrimmed | app/admin/email/page.tsx:56 | `trim` leaves no whitespace at either end |
| Text.TrimEmptyIff | app/admin/email/page.tsx:46 | `!s.trim()` holds iff `s` is all whitespace |
| Text.TrimStartKeepsBlankness | app/admin/email/page.tsx:46 | trimming the front keeps a string all whitespace iff it was |
| Text.TrimEndEmptyIff | app/admin/email/page.tsx:46 | on a string not starting with whitespace, trimming the end gives empty iff the string was empty |
| Text.TrimKeepsCharacters | app/admin/email/page.tsx:56 | `trim` only removes characters, so it never introduces a comma |
| Text.TrimOfTrimmed | app/admin/email/page.tsx:56 | `trim` leaves a trimmed string unchanged |
| Text.TrimIdempotent | app/admin/email/page.tsx:56 | trimming twice is trimming once |
| Text.Split | app/admin/email/page.tsx:56 | `split` gives one more piece than there are separators |
| Text.SplitPiecesLackSeparator | app/admin/email/page.tsx:56 | no piece holds the separator |
| Text.JoinCons | app/admin/email/page.tsx:56 | one unfolding step of `join` |
| Text.JoinSplit | app/admin/email/page.tsx:56 | joining the pieces of a split gives back the input |
| Text.SplitJoin | app/admin/email/page.tsx:56 | splitting a join of separator-free pieces gives back the pieces |
| Text.SplitNoSeparator | app/admin/email/page.tsx:56 | a string without the separator is one piece |
| Text.SplitAround | app/admin/email/page.tsx:56 | the pieces of `a + sep + b` are those of `a` followed by those of `b` |
| Text.AddFrontAppend | app/admin/email/page.tsx:56 | adding a character to the front of the pieces commutes with appending more pieces |
| Text.SplitCons | app/admin/email/page.tsx:56 | one step of `split`: a separator opens a new piece, any other character extends the first |
| Text.ToLower | mi-web/app/admin/page.tsx:78 | lower-casing keeps the length and maps each character by ASCII lower-casing |
| Text.ToLowerIsEqualsIgnoringCase | mi-web/app/admin/page.tsx:78 | `s.toLowerCase() === w` for a lower-case word `w` iff `s` spells `w` in any mix of cases |

## Left out

- JSX, Tailwind classes, icons, `Sidebar` and `StatsCard` are left out. The only class strings kept are the four impact badge colours.
- `lib/api` is not part of this model. Each request is an input that either rejects or resolves with a body.
- AdminEmail.EmailPage.SettleSend: a `null` reply, on which `result.success_count` would throw a `TypeError` caught with that error's message, is not modelled. Replies are always records with counts.
- `new Date(...)`, `getTime()`, `isUpcoming` and `toLocaleString` are left out. Sort keys are already-parsed integer timestamps, so invalid dates and the NaN comparator results they produce are not modelled.
- `localStorage`, `alert`, `console.log` and the router are not called. Storage is an input record, and alerts and router calls are recorded in sequences.
- React scheduling is not modelled: effect re-runs on a change of `[role, router]` in `mi-web/components/DashboardLayout.tsx`, re-renders and batched state updates. Each effect is one method call.
- AdminEmail.EmailPage.SettleSend: the refresh of the email stats after a successful send is recorded as a counter only. `loadStats` and the stats panel of the email page are not modelled, because they only display fetched data.
- AdminEmail.EmailPage.HandleSendEmail: edits made to the form while the request is in flight are not modelled. The method stops at the `await`, and `SettleSend` continues from the form as it then stands.
- Text.ToLower: only ASCII letters are lower-cased. For the three words compared against, this agrees with `toLowerCase`, because no other character lower-cases to one of their letters.
- Responses typed `any` in the pages are fixed record types holding only the fields the logic reads: users, mentors, licenses, news items and the mentor summary.
- Text.TrimStart, Text.TrimEnd: a string is a sequence of characters, and `trim` uses a fixed whitespace set (ECMAScript WhiteSpace and LineTerminator). Surrogate pairs and UTF-16 code units are not modelled.
