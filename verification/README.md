# Parish administration dashboard — a Dafny model

This project models the core of the Immaculate Conception parish dashboard.
The dashboard is a React front end over a Firebase Realtime Database. Staff and
priests use it to manage mass, liturgy, baptism, confirmation, wedding and
funeral appointments, certificate request forms, announcements, priests and the
notification bell. The model covers what the pages compute and write, not how
they are drawn.

The modules follow the program's structure:

- `Json` models JavaScript values (`undefined`, `null`, booleans, integer numbers, strings, objects). It also gives truthiness, `String(v)` and `===`.
- `Decimal` models `String(n)` for counts.
- `Seqs` models the array methods the pages use: `filter`, `reverse` and `slice`.
- `Store` models the generic database accessor `firebaseDatabase(path)`: `create`, `patch`, `remove`, `fetch` and `fetchAll`. It covers Firebase's write rules: `null` deletes a field, `undefined` makes the write throw, a missing key is created by `update`, and `push` keys are fresh.
- `Fetcher` models the query and mutation hooks and the client cache they invalidate.
- `Session` models the signed-in user store.
- `UserFilterList` models the restriction of appointment lists to the signed-in priest.
- `Utils` models `separatePascalCase`, `toStandardDateFormat`, `trim`, `toLowerCase` and `includes`.
- `DataTable` models the shared record browser: search, month filter, newest-first paging, delete label and CSV export.
- `StatusBadge`, `SideNavigation` (with the route table), `Notifications` and `TableActions` model the shared components.
- `RowWrites` models what every row handler shares: the row's id and what the list shows after a patch, a create or a delete.
- The pages:
  - `Appointments` covers the baptism, confirmation and wedding appointment tables.
  - `Liturgy` covers the mass page and the church and house liturgy sections of the funeral page. The funeral sections repeat the mass page's handlers and columns (`src/pages/FuneralPage.tsx`, lines 37-214 and 216-394), so the rows below cite the mass page. One difference: the funeral sections give the priest cell no confirmation status, so their cells show the bare name in the plain colour (`Liturgy.Cell`).
  - `RequestForms` covers the baptism, wedding and funeral certificate forms.
  - `AnnouncementPage`, `WeddingPage` (announcements and expiry) and `PriestPage` cover the rest.

Every page action is a function from the page's inputs to the list of writes it
issues. `Store.ApplyAll` runs those writes in order; a write that throws leaves
the database as it was, and the next write still runs. The clock is a parameter:
`now` is the ISO text of the current time and `today` the date text of
notifications. So are the text-editor content, the confirmed phone-auth
account id, `JSON.stringify` (as `serialize`) and the calendar comparison of the
date library (as `inCurrentMonth`).

The priest form's phone-number rule measures the length of the mask
`"+63 000-0000-000"`, which is 16 characters. Its message says 13. The model
keeps both as written, and `PriestPage.PhoneRuleCountsTheMask` shows which
numbers pass.

## Model

| member | source | states |
|---|---|---|
| Json.StrictEqualsNoCoercion | src/hooks/useFirebaseFetcher.ts:86 | `===` on a primitive is the same type and the same value: a number never equals its text and a string never equals a number |
| Json.ToJsStringEmpty | src/hooks/useUserFilterList.ts:33-35 | `String(v)` is empty exactly for the empty string, so `String(id)` of a missing or null id is never empty |
| Decimal.ParseNatToString | src/components/CustomDatable.tsx:157-159 | the decimal rendering of a count reads back as the count |
| Decimal.NatToStringInjective | src/components/CustomDatable.tsx:157-159 | two different counts never render the same |
| Seqs.Filter | src/hooks/useFirebaseFetcher.ts:73 | `filter` keeps exactly the elements satisfying the predicate, never more than it was given |
| Seqs.FilterIsSubSeq | src/hooks/useFirebaseFetcher.ts:73 | `filter` keeps the survivors in their original order |
| Seqs.FilterFilter | src/components/CustomDatable.tsx:59-74 | filtering twice equals filtering once by the conjunction |
| Seqs.JsSlice | src/components/CustomDatable.tsx:76-78 | `slice(from, to)` has length `max(0, min(to, n) - from)` and element `i` is `s[from + i]` |
| Seqs.Reverse | src/components/CustomDatable.tsx:53 | `reverse` puts element `i` at position `n - 1 - i` |
| Store.Create | src/database/index.ts:262-271 | `create` fails exactly when a field other than the stamp is `undefined`; otherwise it appends one entry under a fresh valid key holding the data without null fields plus `dateTimeStamp`, and touches no other collection |
| Store.Patch | src/database/index.ts:273-280 | `patch` fails on an invalid key or an `undefined` field; otherwise the document at `id` is the old one (or nothing) with the data merged, null fields deleted and `updated` stamped; a missing key is appended; other keys and collections are untouched |
| Store.Remove | src/database/index.ts:282-285 | `remove` leaves no document at `id`, keeps every other key's document and every other collection |
| Store.Fetch | src/database/index.ts:287-291 | `fetch` fails on an invalid key; otherwise it returns nothing exactly when the key is absent, and else the document stored under the key, without an injected id |
| Store.FetchAll | src/database/index.ts:293-306 | `fetchAll` lists one record per stored entry, in order, each with the key as `id` |
| Store.InjectId | src/database/index.ts:300-302 | `{ id: key, ...value }` keeps every stored field, adds `id`, and lets a stored `id` win over the key |
| Store.FreshKey | src/database/index.ts:264 | the generated key is valid and unused in the collection |
| Store.CreateThenFetch | src/database/index.ts:262-291 | fetching the key `create` returned gives back the written data with the stamp |
| Store.CreateKeysDistinct | src/database/index.ts:262-271 | two creations in a row return different keys |
| Store.CreatePreservesWellFormed | src/database/index.ts:262-271 | creation keeps every collection free of duplicate and invalid keys |
| Store.PatchPreservesWellFormed | src/database/index.ts:273-280 | a patch keeps every collection free of duplicate and invalid keys |
| Store.RemovePreservesWellFormed | src/database/index.ts:282-285 | removal keeps every collection free of duplicate and invalid keys |
| Store.ApplyAllPreservesWellFormed | src/database/index.ts:259-315 | any run of writes keeps the database well formed |
| Store.RemoveListedEntry | src/database/index.ts:282-285 | removing the key of listed entry `i` drops exactly that entry and keeps the others in order |
| Store.RemoveAbsentKey | src/database/index.ts:282-285 | removing an absent key changes nothing |
| Store.PatchEntriesLookup | src/database/index.ts:273-280 | after a field-level update, the key `id` holds the merge and every other key its old document |
| Store.PatchMergeExample | src/database/index.ts:273-280 | `{a: 1, b: 2}` patched with `{b: null, c: 3}` holds `a: 1`, `c: 3`, the stamp, and no `b` |
| Fetcher.SearchByKey | src/hooks/useFirebaseFetcher.ts:79-87 | the search returns exactly the fetched records whose field is strictly equal to the value |
| Fetcher.SearchKeepsOrder | src/hooks/useFirebaseFetcher.ts:85-86 | search results keep the listing order |
| Fetcher.SearchNoCoercion | src/hooks/useFirebaseFetcher.ts:86 | a search by a number never finds the same number stored as text, and the reverse |
| Fetcher.FetchById | src/hooks/useFirebaseFetcher.ts:13-23 | the id is passed through `String(id)`: a missing id reads the key "undefined", a null one "null" |
| Fetcher.Query | src/hooks/useFirebaseFetcher.ts:4-23 | on a coherent cache a query answers what the store holds, and the cache stays coherent |
| Fetcher.Invalidate | src/hooks/useFirebaseFetcher.ts:33 | invalidating `[path]` drops exactly the queries of that collection |
| Fetcher.MutatePreservesCoherence | src/hooks/useFirebaseFetcher.ts:25-61 | after any mutation hook, every cached answer still equals what the store would answer |
| Fetcher.RunPreservesCoherence | src/hooks/useFirebaseFetcher.ts:4-61 | no run of queries and mutations ever serves a stale answer |
| Fetcher.ApplyTouchesOnlyItsPath | src/database/index.ts:262-285 | a write changes only the collection it names |
| Session.SetUser | src/store/user.ts:20 | `setUser` signs the given user in |
| Session.Logout | src/store/user.ts:21 | `logout` forgets the user; `String(user?.id)` becomes "undefined" |
| Session.LogoutResets | src/store/user.ts:18-22 | logging out returns to the initial state; a new sign-in depends only on the new user |
| UserFilterList.FilterByPriest | src/hooks/useUserFilterList.ts:6-26 | a super administrator sees everything; anyone else exactly the objects assigned to the priest that the priest has not rejected |
| UserFilterList.PriestSeesOwnRows | src/hooks/useUserFilterList.ts:11-23 | a priest's list is a subsequence with no rejected row and no other priest's row |
| UserFilterList.PriestsDisjoint | src/hooks/useUserFilterList.ts:11-23 | two priests' lists never share a row |
| UserFilterList.SignedInPriestId | src/hooks/useUserFilterList.ts:28-36 | the id searched for is `String(id)` of the first listed priest whose `authId` is the account's id, and the text "undefined" when no priest is linked |
| UserFilterList.FilterList | src/hooks/useUserFilterList.ts:28-36 | `useFilterList` keeps the whole list for a super administrator; otherwise exactly the rows assigned to the signed-in account's priest and not rejected, in their original order |
| UserFilterList.LinkedPriestSeesRowsOfItsKey | src/hooks/useUserFilterList.ts:28-36 | in any priests collection, the first priest linked to the account is found under its key, and the account sees exactly the rows assigned to that key, in order |
| Utils.SeparateSpacesEveryAdjacency | src/utils/index.ts:10-12 | the left-to-right regex replacement equals the reference "a space in every lower-upper adjacency" |
| Utils.SeparateLength | src/utils/index.ts:10-12 | exactly one character is added per adjacency |
| Utils.SeparateWithoutAdjacency | src/utils/index.ts:10-12 | a text without a lower-upper adjacency is unchanged |
| Utils.SeparateLeavesNoAdjacency | src/utils/index.ts:10-12 | the output has no lower-upper adjacency |
| Utils.SeparateIdempotent | src/utils/index.ts:10-12 | applying the transform twice equals applying it once |
| Utils.JoinUndoesSeparate | src/utils/index.ts:10-12 | removing the inserted spaces gives back the input, for any input without an "a B" triple |
| Utils.SeparateKeepsFirst | src/utils/index.ts:10-12 | the first character never changes |
| Utils.SeparateConcat | src/utils/index.ts:10-12 | the scan never carries a match across a boundary after a non-lower-case character |
| Utils.SeparateExample | src/utils/index.ts:10-12 | "WeddingRequestForm" becomes "Wedding Request Form" |
| Utils.ToStandardDateFormat | src/utils/index.ts:3-9 | a missing or empty date gives the empty text; any other date goes to the formatter |
| Utils.ToLower | src/components/CustomDatable.tsx:64-65 | lower-casing keeps the length, maps each character, and leaves no upper-case letter |
| Utils.Trim | src/components/CustomDatable.tsx:65 | `trim()` neither starts nor ends with white space, and is empty exactly for a blank text |
| Utils.TrimIsInfix | src/components/CustomDatable.tsx:65 | what `trim()` leaves occurs in the text, with only white space cut on either side |
| Utils.Includes | src/components/CustomDatable.tsx:62-66 | `includes` holds exactly when the needle occurs at some position |
| DataTable.FilteredIsTwoPasses | src/components/CustomDatable.tsx:58-74 | the one-pass filter equals the search pass followed by the month pass |
| DataTable.FilteredKeepsPassing | src/components/CustomDatable.tsx:58-74 | a record survives exactly when it passes the search (if any) and the month test (if a month is picked) |
| DataTable.BlankQueryKeepsAll | src/components/CustomDatable.tsx:61-66 | a query of only white space passes the truthiness test yet keeps every record |
| DataTable.MonthChoiceIrrelevant | src/components/CustomDatable.tsx:69-74 | which month is picked does not matter, only that one is |
| DataTable.PageOf | src/components/CustomDatable.tsx:76-78 | a page holds at most `pageSize` rows, row `i` being the record at newest-first position `(page - 1) * pageSize + i` |
| DataTable.EveryRecordOnItsPage | src/components/CustomDatable.tsx:76-78 | every filtered record is shown: the one at newest-first position `j` is row `j % n` of page `j / n + 1` |
| DataTable.PageForDivides | src/components/CustomDatable.tsx:76-77 | that page and row are the quotient plus one and the remainder of `j` by the page size |
| DataTable.PageForPosition | src/components/CustomDatable.tsx:76-77 | the page's offset plus the row is the position, and the row is under the page size |
| DataTable.InitialRowsAgree | src/components/CustomDatable.tsx:52-54 | the initial rows are the newest ten records, the same as the first filtering run shows |
| DataTable.PageSizeChangeShowsNewest | src/components/CustomDatable.tsx:81-83 | after a page-size change the newest `n` filtered records are shown |
| DataTable.SetPageSize | src/components/CustomDatable.tsx:81-83 | a page-size change returns to page 1 and keeps the query, month and selection |
| DataTable.PagerCountsUnfiltered | src/components/CustomDatable.tsx:166-172 | the pager's total is never below the filtered count, and the page on screen is blank exactly when it starts past the filtered list, so a filter can leave offered pages empty |
| DataTable.DeleteLabel | src/components/CustomDatable.tsx:155-159 | nothing selected gives the prompt; otherwise the label starts with "Delete " |
| DataTable.DeleteLabelNamesCount | src/components/CustomDatable.tsx:151-159 | the count can be read back from the label, different counts give different labels, and the button is disabled exactly on the prompt |
| DataTable.LabelDigits | src/components/CustomDatable.tsx:157-159 | the label's digits are the count, followed by " record" or " records" |
| DataTable.ExportCsv | src/components/CustomDatable.tsx:86-119 | no columns aborts; otherwise the fields are the columns' `accessor \|\| title` in order, duplicates kept, without "actions"; one row per record with exactly the fields' properties, each the record's value or empty text; saved as `<title>.csv` or `data.csv` |
| DataTable.ExportSplits | src/components/CustomDatable.tsx:100-108 | each record is exported on its own: the export of two lists joined is the two exports' rows joined, under the same fields |
| DataTable.HeadersCover | src/components/CustomDatable.tsx:93-97 | every column yields its header and every header comes from a column |
| StatusBadge.Render | src/components/StatusBadge.tsx:4-14 | no badge for a falsy status; otherwise `String(status)` in the mapped colour |
| StatusBadge.ColorsDistinguishStatuses | src/components/StatusBadge.tsx:5-9 | the three statuses get three distinct colours and no other text gets one |
| SideNavigation.IsActive | src/components/SideNavigation.tsx:40-45 | the dashboard link is active only on the dashboard; any other link wherever the path contains it |
| SideNavigation.ActiveOnOwnPage | src/components/SideNavigation.tsx:40-45 | every link is active on its own page, and a section link on its sub-pages |
| SideNavigation.LinksAreSections | src/components/SideNavigation.tsx:19-29 | nine links, all different, none of them home or login |
| SideNavigation.HandleLogout | src/components/SideNavigation.tsx:35-38 | the logout link leaves nobody signed in |
| Notifications.ParseType | src/database/index.ts:194-206 | a stored type text is read as the type it names |
| Notifications.TypeNameRoundTrip | src/database/index.ts:194-206 | every notification type's name reads back as that type, so the twelve names are distinct |
| Notifications.RouteOf | src/components/Notifications.tsx:30-45 | every notification type opens one of the navigation's sections |
| Notifications.ListedNotifications | src/components/Notifications.tsx:78-80 | the bell lists exactly the notifications addressed to a user and not from the administrator, in fetch order |
| Notifications.UnreadCount | src/components/Notifications.tsx:82-84 | the number on the bell counts the listed unread notifications, never more than are listed |
| Notifications.AppendUnlistedKeepsCount | src/components/Notifications.tsx:78-84 | a notification that is not listed does not change the count |
| Notifications.View | src/components/Notifications.tsx:25-52 | viewing an unread notification patches `{read: true}` at its id, a read one writes nothing, and the route is followed exactly when the type is known |
| Notifications.ViewingMarksRead | src/components/Notifications.tsx:25-28 | viewing an unread listed notification lowers the bell's count by one and it stays listed |
| Notifications.CountAfterRead | src/components/Notifications.tsx:82-84 | marking one listed notification read lowers the count by exactly one |
| Notifications.ReadPatchEffect | src/components/Notifications.tsx:27 | after the read patch only that record changes in the list, and it is read |
| TableActions.NotificationFor | src/components/TableActions.tsx:47-54 | the notification has its six fields, is addressed to `userId || null`, is marked from the administrator and holds no `undefined` |
| TableActions.DecisionMessagesDiffer | src/components/TableActions.tsx:48-67 | the approval and rejection messages differ and both start with the title |
| TableActions.ApproveRejectShownIff | src/components/TableActions.tsx:79-81 | the approve and reject buttons show exactly for a super administrator on a pending or status-less row |
| TableActions.ConfirmDecision | src/components/TableActions.tsx:41-77 | a confirmed decision writes the notification first, then the page's callback |
| TableActions.NotificationStoredAsSent | src/components/TableActions.tsx:47-54 | the created notification is stored with its text and address |
| TableActions.NotifyingLeavesBellAlone | src/components/TableActions.tsx:53 | the dashboard's own notifications never reach its bell, so the count stays |
| TableActions.CreateNotificationEffect | src/components/TableActions.tsx:47-54 | creating a notification appends one stored record and leaves other collections |
| TableActions.ConfirmRequest | src/components/TableActions.tsx:120-140 | the priest's confirm and reject run the matching callback alone, with no notification |
| TableActions.ReadyButtonView | src/components/TableActions.tsx:229-278 | hidden for non-administrators; "Released" on a released form, "Set as released" on a ready one, "Set as ready" otherwise |
| TableActions.SetReady | src/components/TableActions.tsx:204-214 | "Set as ready" writes the ready notification, then the callback |
| TableActions.SubmitRelease | src/components/TableActions.tsx:198-227 | the release form refuses a name under two characters; otherwise it writes the release notification, then the callback |
| TableActions.ReleaseMessageNamesRecipient | src/components/TableActions.tsx:218 | the recipient's name can be read back from the release message |
| RowWrites.RowIdIsKey | src/database/index.ts:300-302 | a listed row without its own `id` carries its key as `id`, so `String(row.id)` addresses it |
| RowWrites.PatchListedRow | src/database/index.ts:273-280 | patching a listed row sets the patched fields and keeps the others but the stamp |
| RowWrites.NotifyThenPatchListedRow | src/components/TableActions.tsx:47-55 | a notification before the patch does not change what the patch does to the row |
| RowWrites.DeleteListedRow | src/pages/AnnouncementPage.tsx:178-183 | deleting listed row `i` drops exactly that row |
| RowWrites.CreateListedRow | src/database/index.ts:262-271 | creating a document appends one row carrying the data, with its key as `id` |
| Appointments.Decide | src/pages/BaptismPage.tsx:28-68 | approve or reject patches the status alone at the row's id, and writes nothing when the id is falsy |
| Appointments.GatesCompared | src/pages/ConfirmationPage.tsx:64-66 | the baptism buttons show on a pending or status-less row, the confirmation ones only on a pending row, the wedding ones as the baptism ones for a super administrator |
| Appointments.Act | src/pages/WeddingPage.tsx:67-118 | on the wedding page the requester is notified first, even for a row without an id; the other pages only patch the status, and nothing for a row without an id |
| Appointments.NoIdNoStatusWrite | src/pages/BaptismPage.tsx:30 | a row without an id gets no status write |
| Appointments.DecisionSettlesRow | src/pages/BaptismPage.tsx:28-72 | deciding a listed appointment patches the status alone, the badge shows the decision's colour, and the buttons are gone |
| Liturgy.Decide | src/pages/MassPage.tsx:166-210 | `handleApprove` and `handleReject` patch one field (the priest's confirmation or the status), nothing for an empty id |
| Liturgy.AssignPriest | src/pages/MassPage.tsx:212-239 | assigning sets the priest, with the confirmation pending when a request is sent and approved otherwise |
| Liturgy.ModalConfirm | src/pages/MassPage.tsx:59-62 | the priest modal confirms nothing while no priest is selected |
| Liturgy.AssignFromModal | src/pages/MassPage.tsx:264-270 | confirming a row's priest modal writes nothing exactly when no priest is selected, and otherwise assigns the selected priest at `String(row.id)` with the chosen confirmation request |
| Liturgy.PriestOf | src/pages/MassPage.tsx:102 | the priest cell reads the priest record by `String(priestId)` |
| Liturgy.PriestLabel | src/pages/MassPage.tsx:119-128 | the name with no confirmation status, a waiting or rejected sentence naming the priest, no label for an unknown status |
| Liturgy.PriestLabelNamesPriest | src/pages/MassPage.tsx:119-128 | the label always holds the priest's name, and the pending and rejected labels differ |
| Liturgy.PriestColor | src/pages/MassPage.tsx:130-141 | orange exactly while pending, red exactly once rejected |
| Liturgy.Cell | src/pages/FuneralPage.tsx:148-162 | the funeral sections' priest cell shows the bare name in the plain colour whatever the confirmation; the mass page's shows the status label and colour |
| Liturgy.Offered | src/pages/MassPage.tsx:251-321 | a super administrator gets approve and reject on the status; anyone else confirm and reject on the priest's confirmation |
| Liturgy.AdminDecision | src/pages/MassPage.tsx:288-299 | the administrator's decision notifies the requester, then patches the status alone; a row whose id reads empty gets the notification only |
| Liturgy.AdminDecisionSettlesRow | src/pages/MassPage.tsx:289-302 | the administrator's decision patches the status alone, the badge shows its colour, and approve and reject are gone |
| Liturgy.PriestDecisionSettlesRow | src/pages/MassPage.tsx:309-319 | the priest's answer patches the confirmation alone, the buttons are gone, and the row stays in the priest's list exactly when confirmed |
| Liturgy.AssignmentReachesPriest | src/pages/MassPage.tsx:212-239 | after an assignment the row is in the priest's list and offers confirm and reject exactly when a request was sent; the cell turns orange then on the mass page only |
| RequestForms.StatusPatch | src/pages/BaptismPage.tsx:109-119 | the patch is the status plus the release form's values |
| RequestForms.UpdateStatus | src/pages/BaptismPage.tsx:109-119 | `updateRequestFormStatus` writes nothing for an empty id, otherwise one patch at the id |
| RequestForms.SetAsCollected | src/pages/FuneralPage.tsx:491-497 | releasing is refused for a short name; otherwise the release notification naming the recipient comes first, then the callback |
| RequestForms.ReadyStep | src/pages/WeddingPage.tsx:556-568 | "Set as ready" makes the stored status "ready", and the button then offers "Set as released" |
| RequestForms.ReleaseStep | src/pages/BaptismPage.tsx:251-257 | releasing makes the status "released", stores the recipient and date, and the button then shows "Released" |
| RequestForms.ShortNameWritesNothing | src/components/TableActions.tsx:198-201 | a recipient name under two characters writes nothing |
| AnnouncementPage.Submit | src/pages/AnnouncementPage.tsx:58-94 | an edit patches the content at the id (refused without an id, even with empty content); an addition is refused when empty |
| AnnouncementPage.AddAppendsRow | src/pages/AnnouncementPage.tsx:75-79 | adding appends one row with the content |
| AnnouncementPage.EditReplacesContent | src/pages/AnnouncementPage.tsx:60-67 | an edit replaces the content and keeps the other fields but the stamp |
| AnnouncementPage.DeleteDropsRow | src/pages/AnnouncementPage.tsx:178-183 | deleting drops exactly that row |
| WeddingPage.ExpiryIsMonotone | src/pages/WeddingPage.tsx:56-57 | an announcement shown later was shown at every earlier time |
| WeddingPage.ExpiresAtItsOwnTime | src/pages/WeddingPage.tsx:56-57 | an announcement is hidden at its own expiration time |
| WeddingPage.LexLessTransitive | src/pages/WeddingPage.tsx:56-57 | string comparison is transitive |
| WeddingPage.LexLessTotal | src/pages/WeddingPage.tsx:56-57 | any two different strings are ordered one way or the other |
| WeddingPage.Shown | src/pages/WeddingPage.tsx:423-425 | the list keeps exactly the announcements not yet expired |
| WeddingPage.LaterShowsFewer | src/pages/WeddingPage.tsx:423-425 | the list at a later time is the earlier list minus the newly expired rows |
| WeddingPage.Submit | src/pages/WeddingPage.tsx:151-190 | an edit patches content and expiration at the id (refused without an id); an addition needs content and a date |
| WeddingPage.EditWithoutDateChangesNothing | src/pages/WeddingPage.tsx:157-160 | an edit with the date cleared writes `expiration: undefined`, which throws: nothing changes |
| WeddingPage.AddedShownUntilExpiry | src/pages/WeddingPage.tsx:168-175 | an added announcement is listed exactly while the clock is before its expiration |
| WeddingPage.EditMovesExpiry | src/pages/WeddingPage.tsx:153-160 | an edit replaces content and expiration, and the row is listed exactly while the clock is before the new one |
| WeddingPage.DeleteDropsRow | src/pages/WeddingPage.tsx:404-411 | deleting drops exactly that row |
| PriestPage.Validate | src/pages/PriestPage.tsx:44-56 | a name under two characters and a phone number not as long as the mask each give their message |
| PriestPage.PhoneRuleCountsTheMask | src/pages/PriestPage.tsx:44-55 | the mask is 16 characters: a full number passes and a 13-character one fails |
| PriestPage.Submit | src/pages/PriestPage.tsx:106-115 | a valid form is saved at once only for a selected priest whose stored number equals the form's; otherwise a code is sent first |
| PriestPage.Save | src/pages/PriestPage.tsx:122-153 | a patch of the selected priest at its id (refused without an id), or a creation |
| PriestPage.AuthIdOf | src/pages/PriestPage.tsx:118-120 | `userAuthId \|\| null` |
| PriestPage.KeptAuthId | src/pages/PriestPage.tsx:117-120 | the stored account id is the new one, else the selected priest's own |
| PriestPage.NewPriestIsLinked | src/pages/PriestPage.tsx:177-183 | a new priest always confirms the number first, and the save as written stores it linked to the confirmed account, as the corrected save does |
| PriestPage.AsWrittenEditUnlinks | src/pages/PriestPage.tsx:117-133 | as written, saving an edit without a new code unlinks the signed-in priest |
| PriestPage.EditKeepsLink | src/pages/PriestPage.tsx:117-133 | with the link kept, the priest stays found under its key |
| PriestPage.LonePriestFound | src/hooks/useUserFilterList.ts:28-36 | the lone priest is found exactly when its `authId` is the account's id; without one the id is "undefined" |
| PriestPage.DeleteDropsRow | src/pages/PriestPage.tsx:319-322 | deleting drops exactly that row |

## Left out

- Rendering, layout, toasts, modals and drawers are not modelled beyond what decides the writes: `DashboardPage`, `HomePage`, `LoginPage`, `Layout`, `PageContent` and `TextEditor` are not part of this model.
- Firebase itself is reduced to the write rules above. Connectivity, security rules, and concurrent writers are not modelled. `async`/`await` ordering is reduced to the order of the writes.
- Phone sign-in, reCAPTCHA and the one-time code are outside the model. The confirmed account id is a parameter of the save.
- `localStorage` persistence of the session is not modelled; only its state changes are.
- Numbers are integers. Floating point, `NaN` and `Date` objects are not modelled. Dates are ISO texts, and the clock is a parameter.
- `toLowerCase` is modelled on ASCII letters. Strings are sequences of characters, with no UTF-16 surrogates or Unicode case rules.
- The `dayjs` formatting and calendar comparison, `JSON.stringify`, `papaparse`, the file saver and the 800 ms debounce are not modelled. The formatter, the serializer and the month test are parameters, and the query is the debounced one.
- Store.FetchAll: entries are listed in the order their keys were first written. The database lists children by key, and `Object.entries` puts integer-like keys first. The two orders agree for the chronological keys `push()` generates. A document first created by a patch at a chosen key is listed last here, wherever its key sorts. The newest-first paging, `priest?.[0]` and the bell order all read this order.
- Notifications.RouteOf: `Notifications.tsx` imports `ROUTES` from the route table, which exports only `routes`. The model reads the mapper's routes from `routes`.
- Keys that name nested paths (containing `/`), and other invalid keys, are refused with an error rather than addressing another node.
- DataTable.PageOf: page numbers are at least 1. The pager never sets a smaller one, so a page 0 or a negative page is not modelled.
- DataTable.PagerCountsUnfiltered: the pager's own buttons are not modelled. `DataTable.PageOffered` stands for the pages it offers, 1 to `ceil(total / pageSize)`.
- DataTable.Filtered: the month filter reads the record's `created` field, which `create` never writes; the model keeps that reading, and the month test is a parameter.
- DataTable.ExportCsv: the CSV text itself is not produced. The fields and rows handed to the writer are modelled.
- The delete-selected button of the record browser has no handler in the pages (`onDeleteRecords={() => {}}`). Only its label and disabled state are modelled.
- `PriestModal`'s option list and the priest cell's "Assign priest" button are reduced to the selected id and `Liturgy.AssignShown`.

## Findings

| source | as written | input that shows it | evidently intended | confidence | as-written member | corrected member |
|---|---|---|---|---|---|---|
| src/pages/PriestPage.tsx:117-133 | `upsertPriest()` without an argument writes `authId: userAuthId \|\| null`, and the database deletes a null field | edit the name of the lone priest linked to the signed-in account, keeping the phone number: the save goes straight through, `authId` is removed, and the priest's appointment lists now search for the id "undefined" | keep the selected priest's existing `authId` when no new code was confirmed | not executed | PriestPage.AsWrittenEditUnlinks | PriestPage.EditKeepsLink |
