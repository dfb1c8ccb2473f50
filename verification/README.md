# Voice of Ayurveda platform: the persisted-entity core in Dafny

The platform is a browser page. Contributors post to a forum, join a coalition,
start campaigns, estimate the cost of regulatory compliance, share inspection
experiences, draft reform proposals, and receive notifications. The only part with
rules worth stating is the set of managers in `app.js`. Each manager keeps its
collections in memory and writes the whole collection back to the browser's key-value
store after every change. This project models that layer as pure functions over
immutable values.

- `Storage`: PlatformStorage. The store is `Available(map)` or `Unavailable`. When
  the store is disabled, every save leaves the store as it was and every load
  yields the caller's default. The console message each catch block logs is not
  modelled.
- `Entities`: the records (post, member, campaign, inspection, proposal,
  notification) and their payloads ("drafts"). Every creating operation except
  `addNotification` builds `{ id: now, ...payload, <stamped fields> }`. So a draft
  carries an optional `id`, which wins over the clock, and optional values for the
  stamped fields, which the stamps override.
- `Forum`, `Coalition`, `Compliance`, `Proposals`, `Notifications`, `Search`: one
  module per manager class. Each manager that holds state has `Open` (the
  constructor, which loads from the store) and one function per operation.
  `SearchManager` is static, so `Search` has no `Open`. An operation returns the
  new manager, the new store and, where the source returns one, the new record.
- `Seqs` and `Text` hold the JavaScript built-ins the managers rely on:
  `Array.prototype.filter`, `[...new Set(s)]`, `toLowerCase` and `includes`.

`Date.now()` and the ISO date or instant strings are parameters (`now`, `today`,
`instant`).

`addNotification` puts the new notification at the front of the list
(`unshift`, app.js:204).

## Model

| member | source | states |
|---|---|---|
| Storage.Save | app.js:6-12 | On an available store, a save makes the key hold the value. Every other key reads as before. On an unavailable store the save changes nothing; the source then only logs a message. |
| Storage.Load | app.js:14-22 | Yields the stored value when the key is present. Yields the caller's default when the key is missing or the store is unavailable. |
| Storage.LoadAfterSave | app.js:6-22 | Round trip: after saving `v` under `k` on an available store, loading `k` returns `v` whatever the default. |
| Storage.LoadOtherKeyAfterSave | app.js:6-22 | A save leaves what every other key loads unchanged. |
| Storage.LoadMissing | app.js:14-22 | A key never set, or a disabled store, loads as the supplied default. |
| Text.Lower | app.js:57-59 | `toLowerCase` keeps the length. It maps each ASCII capital to its small letter and leaves every other character unchanged, so the result has no ASCII capitals. Full Unicode case mapping is left out (see Text.Lower under "Left out"). |
| Text.Includes | app.js:57-59 | `includes` holds exactly when the needle occurs at some position of the haystack. |
| Text.LowerIdempotent | app.js:57 | Lower-casing an already lower-cased string changes nothing. |
| Text.IncludesEmpty | app.js:57 | Every string includes the empty string. |
| Seqs.Filter | app.js:56-60 | `filter` returns no more elements than its input. Every returned element is from the input and satisfies the predicate. Every input element that satisfies it is returned. |
| Seqs.FilterSelects | app.js:56-60 | `filter` is order-preserving and exact. Its result is the input read at strictly increasing positions, and a position is taken if and only if its element satisfies the predicate. |
| Seqs.FilterAppend | app.js:56-60 | Filtering distributes over concatenation. |
| Seqs.FilterLength | app.js:106 | A filter's length is the number of input positions whose element satisfies the predicate. |
| Seqs.Distinct | app.js:102 | `[...new Set(s)]` has no duplicates and has the same elements as `s`. |
| Seqs.DistinctCardinality | app.js:102 | The number of distinct elements equals the cardinality of the set of elements of `s`. |
| Forum.Open | app.js:27-31 | The constructor's posts are the list stored under "forum_posts". They are empty when the key is missing or the store is unavailable. |
| Forum.Persist | app.js:43 | After writing the post list, a manager constructed on the store sees exactly that list. No other key changes. |
| Forum.AddPost | app.js:33-45 | The new post is element 0, the old posts follow in order, and the length grows by one. The post's id is the payload's id if it has one, else the clock. It keeps the payload's author, category, subject, content and other fields. Its date is today and its replies are empty. Its reactions are exactly support, helpful and concerned at 0, whatever the payload said. The whole list is persisted under "forum_posts" and nothing else is written. |
| Forum.FindFirst | app.js:48 | `find` yields the first position whose post has the id, or reports that no post has it. |
| Forum.Bump | app.js:50 | The counter of `kind` becomes its old value plus one, counting 0 if absent. Every other kind is unchanged. |
| Forum.AddReaction | app.js:47-53 | If no post has the id, the manager and the store are returned unchanged, so no save happens. Otherwise only the first post with the id changes, and only its reactions: `kind` rises by one and every other kind is unchanged. Every other post is untouched and the list is persisted. |
| Forum.Matches | app.js:56-60 | A post matches when the lower-cased term occurs at some position of its lower-cased subject, content or category. |
| Forum.SearchPosts | app.js:55-61 | Every result is a post of the list whose lower-cased subject, content or category includes the lower-cased term. Every such post is in the result. |
| Forum.SearchPostsSelects | app.js:55-61 | The search result is an order-preserving subsequence of the posts. A post's position is taken if and only if the post matches. |
| Forum.SearchEmptyTerm | app.js:55-61 | The empty term returns all posts in their original order. |
| Forum.SearchCaseInsensitive | app.js:57-59 | Searching for the lower-cased term gives the same result as searching for the term. |
| Forum.AddPostKeepsReactionsValid | app.js:33-45 | If every post has all three reaction kinds and no negative count, the same holds after adding a post. |
| Forum.AddReactionKeepsReactionsValid | app.js:47-53 | If every post has all three reaction kinds and no negative count, the same holds after a reaction. |
| Forum.ReactTimesCounts | app.js:47-53 | `n` reactions of one kind to an existing id raise the first matching post's count of that kind by exactly `n`. They leave its other kinds and every other post unchanged. |
| Forum.LostUpdate | app.js:27-45 | Two managers constructed on the same store each add a post. The stored list then holds only the second post on top of the original posts, so the first addition is lost. |
| Coalition.LoadMembers | app.js:67 | The members are the list stored under "coalition_members". They are empty when the key is missing or the store is unavailable. |
| Coalition.LoadCampaigns | app.js:68 | The campaigns are the list stored under "campaigns". They are empty when the key is missing or the store is unavailable. |
| Coalition.Open | app.js:66-70 | The constructor's members are the list stored under "coalition_members" and its campaigns the list stored under "campaigns". Each is empty when its key is missing or the store is unavailable. |
| Coalition.AddMember | app.js:72-84 | The new member is appended. Its id is the payload's or the clock's. Its name, state and other fields come from the payload. Its join date is today and it is unverified. The campaigns are unchanged. Only the member list is persisted. |
| Coalition.CreateCampaign | app.js:86-99 | The new campaign is appended with the payload's or the clock's id. It is "active", has one supporter and starts today. The members are unchanged. Only the campaign list is persisted. |
| Coalition.States | app.js:102 | `members.map(m => m.state)` has one entry per member, in order, and that entry is the member's possibly absent state. |
| Coalition.UpdateStats | app.js:101-107 | The three figures are: the member count; the number of distinct `state` values among the members, with an absent state counting as one value; and the number of campaigns whose status is "active". |
| Coalition.DistinctStatesCount | app.js:102 | The length of `[...new Set(members.map(m => m.state))]` is the number of distinct member states. |
| Coalition.AddMemberStats | app.js:72-84 | Adding a member raises the member count by one. The state count rises by one exactly when no existing member has the new member's state. The campaign count is unchanged. |
| Coalition.CreateCampaignStats | app.js:86-99 | Creating a campaign raises the active-campaign count by exactly one. The other two figures are unchanged. |
| Coalition.StatsExample | app.js:101-107 | Members in MH, MH and KA, one active campaign and one other campaign give 3 members, 2 states and 1 campaign. |
| Compliance.Open | app.js:112-116 | The constructor's inspections are the list stored under "inspections". They are empty when the key is missing or the store is unavailable. |
| Compliance.TotalComplianceCost | app.js:118-132 | monthly = hours × staff × cost per hour. annual = 12 × monthly. teaching hours lost = 12 × hours × staff. students affected is the whole number `k` with `k ≤ lost/4 < k+1`. It touches no state. |
| Compliance.CostExample | app.js:118-132 | 10 hours, 5 staff, 2 per hour give 100, 1200, 600 hours and 150 students. |
| Compliance.AddInspectionExperience | app.js:134-144 | The new experience is appended with the payload's or the clock's id, the payload's fields and today as its submitted date. The list is persisted under "inspections" and nothing else is written. |
| Proposals.Open | app.js:149-151 | The constructor's proposals are the list stored under "proposals". They are empty when the key is missing or the store is unavailable. |
| Proposals.SaveProposal | app.js:153-165 | The new proposal is appended as a "draft" with one supporter, created today, with the payload's or the clock's id. The list is persisted under "proposals" and nothing else is written. |
| Notifications.Open | app.js:190-192 | The constructor's notifications are the list stored under "notifications". They are empty when the key is missing or the store is unavailable. |
| Notifications.AddNotification | app.js:194-207 | An unread notification with the clock's id, the given type and message, and the instant as timestamp is put in front of the list. Its importance is the given one, or "normal" when none is given. The list is persisted under "notifications" and nothing else is written. |
| Search.MemberMatches | app.js:175-178 | A member matches when it has an institution name or a state in which the lower-cased term occurs after lower-casing. An absent field never matches. |
| Search.SearchAll | app.js:170-185 | The post results are exactly the stored posts that match, and the member results are exactly the stored members whose institution name or state includes the term, case-insensitively. The total is the sum of the two counts. Both lists keep the stored order and list each match once: see Search.SearchAllSelectsPosts and Search.SearchAllSelectsMembers. |
| Search.SearchAllCaseInsensitive | app.js:174-178 | Searching everything for the lower-cased term gives the same posts, members and total as searching for the term. |
| Search.SearchAllSelectsPosts | app.js:170-174 | The post results are an order-preserving subsequence of the stored posts. A post is taken if and only if it matches, so each match appears once, in stored order. |
| Search.SearchAllSelectsMembers | app.js:175-178 | The member results are an order-preserving subsequence of the stored members. A member is taken if and only if it matches. |
| Search.SearchAllEmptyTerm | app.js:174-178 | With the empty term every stored post is returned. A member matches if and only if it has an institution name or a state, because optional chaining on two absent fields does not match. |
| Search.SearchAllSeesNewPost | app.js:170-174 | A search just after a post was added on an available store sees the new post, if it matches, ahead of the earlier matches, because the managers are re-read from the store. |

## Left out

- whatsapp-integration.js: styling, modal and page construction, `window.open` share links and the randomised reach counter. None of it has a deterministic contract.
- Page glue in app.js: `displayPosts`, `submitPost` (including its empty-field alert), `calculateComplianceCost` (parsing, the zero-input alert, working days lost), `showNotification` and its five-second removal timer, the `DOMContentLoaded` set-up, and the `window` exports. `updateStats` keeps only its three figures; the element writes are left out.
- Storage.Save, Storage.Load: the console message each catch block logs (app.js:10, app.js:19) is not modelled, since the store itself is left as it was.
- Dead state: the `post_reactions`, `compliance_costs` and `meetings` loads, which nothing reads.
- JSON text and its failures. The store holds values, not text. Corrupt entries, and a single write that exceeds the quota while the store is otherwise available, are not modelled. Only the whole store being unavailable is.
- Forum.Open: each key holds one collection kind. A key holding another kind reads as empty; the code never writes one. The same holds for every other `Open` and for Coalition.LoadMembers and Coalition.LoadCampaigns.
- Dynamic typing: records are typed. A post whose subject, content or category is missing or not a string (on which `searchPosts` would throw a TypeError) is not modelled. Payload fields other than the ones the core reads are kept in `details`, as text values.
- Forum.FindFirst: ids are compared as integers. The string-to-number coercion of JavaScript's `==` is not modelled. Ids are not assumed unique, since the first match is used.
- Forum.Bump: a reaction kind that names an inherited `Object.prototype` member (such as "toString") counts as absent. JavaScript would find the inherited function there.
- Text.Lower: only ASCII letters are lower-cased. Full Unicode case mapping is not modelled.
- Compliance.TotalComplianceCost: exact reals instead of IEEE doubles, so rounding and overflow are not modelled.
- Object identity: `addPost` returns the same object that sits in the list, and a later reaction mutates it. The model's returned record is a value snapshot.
