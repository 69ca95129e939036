# Verified model of the stateful cores of Odysseus

Odysseus is a self-hosted assistant server written in Python. This project models six of its
stateful cores in Dafny and proves what they keep over whole runs, in every interleaving where
the original runs concurrently, and on every input where it is a text or list transformation.
`dafny verify dfyconfig.toml` checks everything.

The code that updates objects in place is modelled by classes and loops, each method proved
against a function on values; the laws are lemmas about those functions and about transition
systems whose steps are those same functions. What each of those functions does is stated once more
in the fields of the data, in the modules named after facts and beside the functions, so that the laws
cannot all hold of a different operation.

| core | files here | main results |
|---|---|---|
| users, privileges, login tokens | `Auth`, `AuthFacts`, `AuthRuns`, `AuthReads`, `AuthDeletion` | no run loses the last admin; a temporary admin stint restores the privileges held before it; the lock-free read of privileges is linearizable against single field writes, and never shows a demoted user the admin map; a deleted name never authenticates, in any interleaving with its two-part delete; a login lasts exactly until something ends it |
| transcript cache | `SessionCache`, `SessionFacts`, `SessionRuns` | reads through the lazily loaded cache are exact in every run without a failed write, whatever objects messages are added through; one read closes the gap after any failures; when the count column is right, exactly |
| calendar listing and occurrence deletion | `Recurrence`, `OccurrenceDeletion` | the windowed expansion behind the SQL prefilter lists exactly what is due, event by event, and says when it stops short; deleting a listed occurrence removes exactly its date or minute from the listing of the whole store |
| default calendar | `DefaultCalendar`, `DefaultCalendarRuns`, `DefaultCalendarFacts` | any number of concurrent first callers converge on one row, and the row locks they take never deadlock; an owner's existing calendar is always used |
| calendar files | `IcsText`, `IcsExport`, `IcsRoundTrip`, `IcsImport`, `ImportFacts`, `IcsTransfer`, `TransferListing` | six sequential replacements are one pass and decode back; an exported file reads back name by name and event by event; when re-import changes nothing, whatever the unordered duplicate query answers; exactly which calendars export followed by import recreates, and that deleted occurrences come back |
| email-account defaults | `OwnerLocks`, `EmailDefaults`, `EmailDefaultsLaws`, `EmailDefaultsFacts` | the ordered owner locks never deadlock; rename and migration keep one default per owner, the oldest |
| device login | `DeviceFlow`, `DeviceRoutes`, `DeviceRuns`, `DeviceEndings` | polls keep the interval then in force; an ended login stays ended and answers at most once |
| email text and dedupe | `EmailDraft`, `EmailDraftFacts`, `UnsubscribeDedupe` | the last reply wins and headers and quoted chain stay; groups are complete, ordered, counted once, and led by the earliest best candidate |

`Text`, `Ordering`, `Properties`, `Collections`, `Totals` and `Wrappers` hold what the cores share:
stripping and searching of strings, sorting by a total order, lines of the form name and value, set sizes, sums used as termination measures, options
and results.

## Where the code falls short of a promise

Each of these is a property one would expect, shown false by a named input and replaced by the
exact condition under which the code meets it.

* Poll spacing of device logins. The throttle check answers "not throttled" for a missing entry,
  so a cancel that falls between the lookup and that check lets the provider be polled early:
  `DeviceRuns.CancelLetsOnePollThrough` is such a run. `DeviceRuns.ThrottleSpacesExactly` is the exact
  condition: the check keeps the interval at every later time if and only if the entry is still there
  or the poll is already due. `DeviceRuns.PollsAreSpaced` is the law for polls whose entry was there.
* Replacing an email reply. A first reply that itself holds a quote marker is partly taken for
  quoted text: `EmailDraft.LastReplyWins` is an equivalence.
* Splitting a built email document. A header field that holds the separator line, or ends in its
  beginning, makes it appear early: `EmailDraft.BuiltDocumentSplits` is an equivalence over the
  fields of the draft.
* Window overlap of listed events. A row whose rule is only whitespace is fetched as recurring
  but expanded as a single event without an overlap check: `Recurrence.ListedItemsOverlap` is an
  equivalence naming exactly that row.
* Exported calendar files. The uid and the rule are written unescaped. The file splits back into its
  lines if and only if neither carries a line break (`IcsExport.ExportReadsBack`); and the uid, which
  section 3.8.4.7 of RFC 5545 makes a TEXT value, then reads back if and only if it holds no backslash
  in front of n, N, a backslash, a semicolon or a comma (`IcsRoundTrip.ExportRoundTrips`).
* Re-import. Events without a uid are added again each time. And the duplicate query asks for no
  order, so of two stored rows that match one event, a row without duration may be repaired only by
  the second import: `IcsImport.ReimportIsIdempotent` is an equivalence on the rows and the file,
  over everything the query may answer, and `IcsImport.AmbiguityShows` builds the failing answers.
  With answers that stay the same, uids are enough: `IcsImport.SteadyReimport`.
* Moving a calendar. The export writes no deleted occurrences, so they come back:
  `TransferListing.DeletedOccurrenceReturns` deletes one, moves the calendar and finds it listed.
  And the duplicate check on import looks at start and summary, not at the uid, so an event is
  dropped when the target already has such a row; events of one file are never dropped for each
  other. `IcsTransfer.TransferIsExact` is the exact condition for recreating every row,
  `TransferListing.MovedSeriesListsTheSameExactly` the one for a series to list the same.
* Compound uids. Printing and splitting invert exactly for a base without a double colon that
  does not end in a colon: `OccurrenceDeletion.SplitInvertsPrint`.
* Deleting a user. The second part of a delete goes by name alone, so it also logs out an account of
  that name made in between: `AuthDeletion.LatePurgeEndsNewLogins`. `AuthDeletion.LoginsLastUntilEnded`
  is the exact condition under which a login lasts through a run.
* The message-count column. A message added through a held session object whose cached entry is gone
  or incomplete writes a wrong count without any failure (`SessionRuns.EvictedObjectZeroesTheColumn`),
  and so does a message after a failed write (`SessionRuns.FailedWriteDriftsTheColumn`).
  `SessionRuns.ColumnCountsExactly` is the exact condition over runs without failed writes,
  `SessionRuns.HeldAddCountsExactly` and `SessionRuns.AddCountsExactly` from any state.

## Model

| member | source | states |
|---|---|---|
| Auth.AuthManager.Setup | core/auth.py:255-260 | first-run setup succeeds exactly on an empty user map with an allowed name, and then creates an admin |
| Auth.AuthManager.CreateUser | core/auth.py:262-283 | succeeds exactly for a name that is not empty, not reserved and free; then the account has the given hash and flag, no stash, and the map of its kind, the shell on for an admin and off for anyone else; every other account is as it was |
| Auth.AuthManager.DeleteUser | core/auth.py:285-332 | unknown names, self-deletion, non-admin requesters and a failed bearer-token revocation leave everything as it was; otherwise the account and every login under its name are gone and nothing else changes |
| Auth.AuthManager.PurgeLogins | core/auth.py:318-327 | the loop drops every login of one name except at most one spared token, and no other login |
| Auth.AuthManager.RenameUser | core/auth.py:334-367 | on success the record moves unchanged to the new name and every login whose normalised name was the old one carries the new one; every refusal leaves users and logins alone |
| Auth.AuthManager.SetAdmin | core/auth.py:405-466 | three single writes, the flag first in a promotion and last in a demotion, add up to: promotion stashes the stored map (the defaults if there is none) and grants the admin map, demotion restores the stash or the defaults, and the last admin is refused |
| Auth.OnlyAdmin | core/auth.py:435-438 | counting at most one admin, with the target among them, means there is no other admin |
| Auth.AuthManager.SetPrivileges | core/auth.py:387-403 | unknown users and admins are refused; otherwise the stored map becomes the merged one overlaid with the known requested keys |
| Auth.AuthManager.Overlay | core/auth.py:396-399 | assigning key by key, skipping unknown ones, is overlaying the known part of the request |
| Auth.AuthManager.GetPrivileges | core/auth.py:378-385 | with no writer beside it, the two reads give the user's effective map, and the defaults for an unknown user |
| Auth.AuthManager.CreateSessionTrusted | core/auth.py:581-596 | a token is issued exactly for an existing user, expires 604800 seconds from now, and is the only login that changes |
| Auth.AuthManager.ValidateToken | core/auth.py:598-621 | valid exactly for a present, unexpired token of an existing user; a token that fails is dropped, no other login changes |
| Auth.AuthManager.GetUsernameForToken | core/auth.py:623-646 | the name the token authenticates, or none, with the same dropping of dead tokens |
| Auth.AuthManager.RevokeToken | core/auth.py:648-651 | exactly that token is gone |
| Auth.AuthManager.RevokeUserSessions | core/auth.py:653-667 | all logins of the name but the spared one are gone, and the count returned is how many |
| AuthFacts.DefaultsAre | core/auth.py:24-40 | the default map: every feature on but the shell, no message limit, no model list, no restriction |
| AuthFacts.AdminHasEverything | core/auth.py:43-48 | the admin map: every feature on, no limit, neither restriction |
| AuthFacts.EffectiveIs | core/auth.py:378-385 | a user's own value counts, a default fills in only what is missing, and an admin's stored map is ignored |
| AuthFacts.DeleteExactly | core/auth.py:285-332 | a delete goes through if and only if the account exists, another account that is an admin asks, and the bearer tokens are revoked; it takes exactly that account |
| AuthFacts.RenameExactly | core/auth.py:334-367 | a rename goes through if and only if an admin asks, the account exists and the new name is free and allowed; the record moves as it is |
| AuthFacts.RelabelExactly | core/auth.py:354-360 | logins whose trimmed, lower-cased name is the old one carry the new one; none is lost, added or prolonged |
| AuthFacts.SetAdminExactly | core/auth.py:405-466 | each refusal exactly when: no such user, a requester who is no admin, the demotion of an admin when no other account is one; otherwise the flag is as asked, and no other account changes |
| AuthFacts.StashIs | core/auth.py:439-463 | a promotion keeps the map it hides and a demotion brings it back, the defaults standing in for none |
| AuthFacts.EditExactly | core/auth.py:387-403 | an edit goes through if and only if the user exists and is no admin, and touches only the map of that record |
| AuthFacts.AuthenticatesExactly | core/auth.py:623-646 | a token authenticates as a name if and only if it is stored under it, has not expired, and the user exists |
| AuthFacts.LookupExactly | core/auth.py:598-621 | looking a token up drops exactly that token, and only if it does not authenticate |
| AuthFacts.RevokeExactly | core/auth.py:653-667 | revoking drops exactly the logins of that name but the spared token |
| AuthFacts.LoginLastsSevenDays | core/auth.py:53-53 | a token authenticates up to the second 604800 seconds after it was issued, and not after |
| AuthRuns.Perform | core/auth.py:262-466 | each step of the runs below is the manager's own operation |
| AuthRuns.StepKeepsAnAdmin | core/auth.py:262-466 | no single account operation takes the number of admins from one or more to none |
| AuthRuns.SetupNeverLocksOut | core/auth.py:255-466 | once setup has succeeded, every state reached by create, delete, rename, set_admin and set_privileges in any order has an admin |
| AuthRuns.DemotionRefusedExactlyForLastAdmin | core/auth.py:435-438 | an authorised demotion of an admin is refused if and only if no other admin exists |
| AuthRuns.AdminRecordIsFrozen | core/auth.py:387-463 | while a user stays an admin, no operation changes its record, under whatever name |
| AuthRuns.PrivilegesSurviveAdminStint | core/auth.py:415-418 | the privileges in force after a demotion are those held just before the matching promotion, whatever runs between |
| AuthRuns.BornAdminDemotesToDefaults | core/auth.py:455-462 | a user created as an admin demotes to exactly the defaults, never to the admin map |
| AuthRuns.SetPrivilegesChangesOnlyKnownKeys | core/auth.py:395-400 | after an edit the effective map differs from before exactly on the known keys asked for |
| AuthReads.ReadIsLinearizable | core/auth.py:378-385 | whatever single writes of promotions, demotions and edits fall between the reader's two reads, its answer is the user's effective map at some instant of the read |
| AuthReads.RunKeepsGiven | core/auth.py:444-463 | after every single write of any run the map the user was last given as a non-admin is in the stored map, the stash, or the hands of the demotion in progress |
| AuthReads.DemotedUserHasGivenMap | core/auth.py:439-463 | whenever the flag is down, after any number of stints as admin, the user's effective map is the one last given at the start or by an edit |
| AuthReads.GivenHasSource | core/auth.py:387-400 | that map is the one at the start of the run or one written by an edit, never one written by a promotion |
| AuthReads.DemotedReaderSeesGivenMap | core/auth.py:378-385 | a read that begins and ends with the flag down returns the map last given, whatever stints as admin lie between its two reads: never the admin map |
| AuthReads.WritesAreAtomicToReaders | core/auth.py:439-463 | every intermediate record of a promotion shows the admin map, the stored map being the old one until it is stashed, and every one of a demotion the map before it |
| AuthReads.StepAccounts | core/auth.py:444-463 | each single write leaves the stored map, and the stash that may replace it, equal to maps in force since the reader's flag read |
| AuthReads.WritesAreSteps | core/auth.py:439-463 | the single writes of a promotion and of a demotion, in the order in which the method is proved to make them, are runs of the writer that readers run beside |
| AuthDeletion.PerformOnAccounts | core/auth.py:262-466 | each step on accounts, but for the two halves of a delete, is the manager's own operation |
| AuthDeletion.PerformOnLogins | core/auth.py:581-667 | each step on logins is the manager's own operation |
| AuthDeletion.StepKeepsNoOrphans | core/auth.py:285-332 | every step keeps: each live login names an existing user or one whose delete is between its two sections |
| AuthDeletion.QuietStateHasNoOrphans | core/auth.py:315-327 | after any interleaving of create, login, logout, validate, rename, revoke and delete, once no delete is half-way every login names an existing user |
| AuthDeletion.DeletedNameNeverAuthenticates | core/auth.py:285-332 | from the first section of a delete until the name is made again no token authenticates as it, whatever runs between the sections and after them, and after the second no login carries it |
| AuthDeletion.DeletedAccountsTokensStayDead | core/auth.py:315-327 | a token the account held stays dead after the delete returns, even once the name is in use again |
| AuthDeletion.LoginsLastUntilEnded | core/auth.py:354-360 | a login is there after every part of a run, under the name its account then has, if and only if no action of the run ends it |
| AuthDeletion.LoggedInAuthenticates | core/auth.py:623-646 | while it lasts, its token authenticates as its account exactly until it expires |
| AuthDeletion.LogInLogsIn | core/auth.py:581-596 | a login of an existing user lasts seven days from now and leaves every other login alone; one of nobody changes nothing |
| AuthDeletion.OnlyLogInIssues | core/auth.py:334-667 | no other action gives out a token or prolongs one, and only a rename of its account changes a name |
| AuthDeletion.LatePurgeEndsNewLogins | core/auth.py:318-324 | an account made again between the two sections of a delete, and logged into, loses its login to the second section |
| AuthDeletion.TwoSectionsMakeOneDelete | core/auth.py:294-328 | with nothing between them the two sections are the delete method's result |
| AuthDeletion.StepEndsExactly | core/auth.py:313-360 | a step ends a login if and only if it logs the token out, replaces it, looks it up after its expiry, revokes the account's logins without sparing it, or carries out either section of a delete of that name; refused deletes and logins end nothing |
| SessionCache.SessionManager.GetSession | core/session_manager.py:421-452 | reloads exactly when the entry is absent or shorter than the rows, leaves the store alone, returns the cached object, and fails exactly when nothing can be loaded |
| SessionCache.SessionManager.LoadSessionFromDb | core/session_manager.py:500-525 | the entry becomes a fresh object with the rows in order; an empty session becomes a metadata entry that trusts the count column |
| SessionCache.SessionManager.SyncSessionMetadata | core/session_manager.py:454-498 | the cached count becomes the number of rows; an entry without a row is left alone |
| SessionCache.GetIsLoadSyncLoad | core/session_manager.py:434-452 | loading, refreshing the count and loading again if short is one reload decision on the state before |
| SessionCache.GetTwiceIsGet | core/session_manager.py:430-432 | a second read changes nothing and returns the same |
| SessionFacts.LoadExactly | core/session_manager.py:500-525 | a load caches the rows, each with its role and id, and their number; of an empty session the number in the column |
| SessionFacts.GetExactly | core/session_manager.py:421-452 | reading leaves the store and every other session alone, fails exactly when the session is not stored and its cached transcript is short of its count, and else leaves the rows, in order, wherever the transcript was missing or short |
| SessionFacts.AddExactly | core/session_manager.py:225-309 | adding puts one message with that role at the end of the transcript read, and one row with that id and role at the end of the rows if the write goes through |
| SessionFacts.TruncateExactly | core/session_manager.py:311-351 | truncating keeps the first rows and the first messages, at most the number asked for, and the column counts the rows |
| SessionFacts.ReplaceExactly | core/session_manager.py:353-415 | replacing stores and caches message i under id i with role i, for every i |
| SessionFacts.CreateExactly | core/session_manager.py:541-585 | creating succeeds exactly for a new id, leaves an empty stored and cached session, and touches no other |
| SessionFacts.DeleteExactly | core/session_manager.py:587-633 | after deleting, the session is neither stored nor cached; the answer is whether it was either; no other is touched |
| SessionCache.SessionManager.CreateSession | core/session_manager.py:541-585 | a new id gets an empty stored and cached session; a taken id is refused and changes nothing |
| SessionCache.SessionManager.AddMessageTo | core/models.py:138-151 | on the cached object or a stale one: the message goes to that object, its row is stored if the write goes through, the column takes the length of the transcript cached now, and a session deleted meanwhile leaves the cache |
| SessionCache.SessionManager.PersistMessage | core/session_manager.py:244-309 | a row is stored exactly when its session row exists and the write goes through; without a session row the cached entry is dropped |
| SessionCache.SessionManager.AddMessage | core/session_manager.py:225-242 | reading the session, then appending and persisting, reaches the specified state |
| SessionCache.SessionManager.TruncateMessages | core/session_manager.py:311-351 | negative counts are refused; otherwise rows and transcript keep their first messages and the column counts the rows that remain |
| SessionCache.SessionManager.DropRowsFrom | core/session_manager.py:325-327 | deleting the rows from a position on, one at a time, keeps exactly the first ones |
| SessionCache.SessionManager.ReplaceMessages | core/session_manager.py:353-415 | succeeds exactly for a stored session and a write that goes through; then row i and cached message i have the id and role of message i, for every i, and column and counts are the number of messages |
| SessionCache.SessionManager.DeleteSession | core/session_manager.py:587-633 | rows and cached entry are gone, including an entry that had no row, and the answer is whether either existed |
| SessionCache.SessionManager.Evict | core/session_manager.py:758-759 | dropping the cached object leaves every row and every other entry |
| SessionRuns.Perform | core/session_manager.py:225-633 | each step of the runs below is the manager's own operation, adding through a held object included |
| SessionRuns.BootIsConsistent | core/session_manager.py:86-131 | the start-up cache of discovered sessions, known by their row count only, meets the run invariant, however far the count columns have drifted |
| SessionRuns.GetIsExact | core/session_manager.py:421-452 | in a consistent state a read returns exactly the rows, in order, and succeeds exactly for stored sessions |
| SessionRuns.StepRefines | core/session_manager.py:225-415 | each operation without a failed write, adding through a held object included, keeps cached transcripts equal to the rows or visibly shorter, and does to the rows what the cacheless reference does |
| SessionRuns.HeldAddRefines | core/models.py:138-151 | adding through a held object, cached, stale or never loaded, leaves the entry exact or visibly shorter, so the next read loads it |
| SessionRuns.CacheIsInvisible | core/session_manager.py:421-452 | after any such run, with evictions anywhere and messages added through any objects, reading a session gives the reference transcript row for row |
| SessionRuns.StepCounts | core/session_manager.py:283-286 | whether the column counts the rows after a step: made right by every write through the manager, by a held object exactly if it is the cached one and complete, and otherwise left as it was |
| SessionRuns.ColumnCountsExactly | core/session_manager.py:283-286 | over any run without failed writes the column of a session counts its rows if and only if the last operation to write it was one that gets it right |
| SessionRuns.HeldAddCountsExactly | core/session_manager.py:283-286 | from any state, the write of a held object leaves the column equal to the number of rows if and only if before it the session was cached with a transcript as long as the rows, for the cached object, or one longer, for a stale one |
| SessionRuns.EvictedObjectZeroesTheColumn | core/session_manager.py:457-465 | a run without failures after which the column is zero beside two rows |
| SessionRuns.HydrationClosesTheGap | core/session_manager.py:443-447 | from any state, after one read the transcript is no shorter than the rows, equal to them if it loaded them, and the next read loads nothing |
| SessionRuns.AddCountsExactly | core/session_manager.py:283-286 | a stored message leaves the column equal to the rows if and only if the transcript was no longer than the rows before |
| SessionRuns.FailedWriteDriftsTheColumn | core/session_manager.py:457-465 | after one failed write the next successful one writes a column one too high |
| Recurrence.ExpandSeries | routes/calendar_routes.py:742-800 | seeking to the start less the duration, stopping at the end and at the limit, yields the first 1000 of all overlapping, unexcluded occurrences, flagged exactly when an overlapping one follows; terminates on endless rules |
| Recurrence.Seek | routes/calendar_routes.py:746-752 | nothing before the seek position overlaps the window |
| Recurrence.Collect | routes/calendar_routes.py:752-798 | the loop keeps exactly the naive prefix up to where it stops, and says why it stopped |
| Recurrence.ExpandRrule | routes/calendar_routes.py:686-800 | for every row the query fetches, empty, blank, malformed or well-formed rule, the expansion is the naive answer |
| Recurrence.NaiveIsExact | routes/calendar_routes.py:742-777 | the naive answer is strictly increasing and holds a time if and only if it is an occurrence that overlaps the window and is not excluded |
| Recurrence.UntruncatedIsComplete | routes/calendar_routes.py:764-766 | when the flag is down, nothing was dropped at the limit |
| Recurrence.TruncatedIsFlagged | routes/calendar_routes.py:796-798 | items are flagged if and only if an overlapping occurrence follows the limit, and then there are exactly 1000 |
| Recurrence.RowListsExactly | routes/calendar_routes.py:701-800 | in the fields of the row: an event without a rule is listed as itself if and only if it overlaps, one with a blank rule if and only if it starts before the end, one with a rule at exactly its overlapping occurrences whose date or minute is not excluded, in order, unless there are 1000, all flagged |
| Recurrence.CutExactly | routes/calendar_routes.py:752-798 | items are flagged if and only if there are 1000 and the rule goes on in the window after the last of them |
| Recurrence.CutKeepsTheFirst | routes/calendar_routes.py:752-798 | and then every item due no later than the last of them is listed: the limit cuts off the end |
| Recurrence.UnfetchedIsEmpty | routes/calendar_routes.py:1159-1177 | a row the SQL time condition leaves out has nothing to show in the window |
| Recurrence.ListEvents | routes/calendar_routes.py:1139-1195 | every item is due for one of the rows asked for; every item due for one of them is there, unless an item of that series is flagged; no event is listed twice at one time; the flag of the answer is up exactly when some item is flagged, and then only can anything be missing |
| Recurrence.ListingIsExact | routes/calendar_routes.py:1159-1195 | over all rows: what is listed is due for a row that is the caller's own, not cancelled and in the calendar asked for by id or name, and what is due for such a row is listed unless its series is flagged |
| Recurrence.EachIsListedOnce | routes/calendar_routes.py:1183-1188 | with distinct uids no event appears twice at one time |
| Recurrence.ListedItemsOverlap | routes/calendar_routes.py:701-709 | every listed item overlaps the window if and only if the row is not a whitespace-only rule that ended before it |
| OccurrenceDeletion.SplitInvertsPrint | routes/calendar_routes.py:134-148 | the base is recovered if and only if it is not empty, has no double colon and does not end in a colon; then the key is the printed suffix |
| OccurrenceDeletion.PlainUid | routes/calendar_routes.py:134-144 | a uid without two colons in a row is its own series, the empty one is refused, and it names no occurrence |
| OccurrenceDeletion.CompoundUid | routes/calendar_routes.py:134-148 | the first two colons in a row end the base, an empty base is refused, and the occurrence is the first ten or sixteen characters after them |
| OccurrenceDeletion.EventStore.DeleteEvent | routes/calendar_routes.py:1319-1359 | malformed uids, missing or foreign events and empty keys change nothing; an occurrence delete adds one key to that event's list, sorted; anything else removes the series |
| OccurrenceDeletion.ListedUidResolves | routes/calendar_routes.py:768-774 | the uid a listing emits resolves to its series and to its own date or minute |
| OccurrenceDeletion.DeletingRemovesExactlyTheKey | routes/calendar_routes.py:1329-1344 | every window that was not truncated lists what it listed before less exactly the occurrences of that date or minute |
| OccurrenceDeletion.StaysUntruncated | routes/calendar_routes.py:764-777 | deleting an occurrence never makes an untruncated window truncated |
| OccurrenceDeletion.DeletedIsNeverListed | routes/calendar_routes.py:776-777 | in any window, truncated or not, the deleted date or minute is not listed |
| OccurrenceDeletion.ReadBack | routes/calendar_routes.py:664-674 | reading the stored list back gives the old readable keys and the new one, and nothing else |
| OccurrenceDeletion.StoredExactly | routes/calendar_routes.py:1335-1338 | the stored list holds each readable key as often as before, the new key once if it was not there, nothing else, in dictionary order |
| OccurrenceDeletion.WithExdateIsIdempotent | routes/calendar_routes.py:1335-1338 | deleting the same occurrence again leaves the stored list as it is, for every key the route accepts |
| OccurrenceDeletion.ListedLeadsBack | routes/calendar_routes.py:1322-1335 | a recurring item of one's listing of the store leads back, by its uid alone, to its stored series and its own key |
| OccurrenceDeletion.DeleteKeepsRest | routes/calendar_routes.py:1183-1188 | over the whole store, the listing after the delete is the listing before less exactly the items of that series with that uid; every other series lists what it did |
| OccurrenceDeletion.ListThenDelete | routes/calendar_routes.py:1139-1344 | listing a window, deleting one of the recurring occurrences shown by its uid, and listing any untruncated window shows what was there before less exactly that uid of that series |
| DefaultCalendar.CandidateNamesDiffer | routes/calendar_routes.py:228-244 | an owner's candidate names are pairwise different, for every owner text |
| DefaultCalendarFacts.CandidateReadsBack | routes/calendar_routes.py:228-244 | the first candidate is the owner itself; every later one reads, as a compact JSON array after RFC 8259, as the owner, whatever its characters, and the slot in decimal |
| DefaultCalendar.SomeSlotIsFree | routes/calendar_routes.py:290-292 | a finite table always leaves some slot free |
| DefaultCalendar.CalendarStore.EnsureDefaultCalendar | routes/calendar_routes.py:277-318 | on the single-writer path the loop ends, returns a calendar of the owner, inserts nothing if the owner had one, and otherwise inserts exactly the default in the first free slot: the owner, the name Personal, its color and the local source |
| DefaultCalendarRuns.RowsFollowTheirWriter | routes/calendar_routes.py:296-343 | a row is seen by others only once its inserter commits, goes only if it rolls back, and never changes |
| DefaultCalendarRuns.LocksAreExclusive | routes/calendar_routes.py:328-343 | a row lock is taken only when nobody else holds it and given up only when its holder's transaction ends |
| DefaultCalendarRuns.StepConverges | routes/calendar_routes.py:320-343 | every lookup, insert, lost insert, locking read, commit and rollback keeps: the original rows plus at most the default in the first free slot, which is all any caller holds, and every row lock in the hands of a caller past that slot or about to end |
| DefaultCalendarRuns.CallersConverge | routes/calendar_routes.py:267-343 | in every interleaving of any number of first callers all are given the same row, the owner has that one or none, and no other row changes |
| DefaultCalendarFacts.ExistingCalendarIsUsed | routes/calendar_routes.py:279-287 | when the owner has a calendar, in every interleaving each caller that has looked is given one of the owner's calendars, and no row is added, changed or locked |
| DefaultCalendarRuns.RunsAreBounded | routes/calendar_routes.py:290-343 | every schedule is bounded by the work it started with |
| DefaultCalendarRuns.FurthestIsNotBlocked | routes/calendar_routes.py:328-343 | when nobody is about to end, a caller as far through the slots as any is blocked neither by an uncommitted row nor by a row lock |
| DefaultCalendarRuns.SomeoneCanMove | routes/calendar_routes.py:320-343 | while a caller has not ended, some caller can take a step other than rolling back, although locking reads wait for each other's locks until the transactions end |
| DefaultCalendarRuns.EveryoneCanEnd | routes/calendar_routes.py:290-343 | from every reachable state, row locks held, there is a continuation without rollback that ends every call |
| IcsText.EscapeIsOnePass | routes/calendar_routes.py:114-122 | the six replacements over the whole text are one left-to-right pass |
| IcsText.EscapedPieces | routes/calendar_routes.py:114-122 | character by character: a backslash before a backslash, semicolon or comma, backslash and n for a line break, a pair of CR and LF being one, everything else as it is |
| IcsText.UnescapeEscape | routes/calendar_routes.py:107-122 | the decoder of section 3.3.11 of RFC 5545 applied to the escaped text gives the text, line endings as LF |
| IcsText.EscapedHasNoBreak | routes/calendar_routes.py:119-121 | an escaped text has no raw CR or LF |
| IcsText.UnescapeKeepsExactly | routes/calendar_routes.py:1583-1583 | a TEXT reader leaves a text that was not escaped as it is if and only if no backslash in it stands in front of a character it would escape |
| IcsText.SplitInvertsJoin | routes/calendar_routes.py:1601-1601 | joined lines split back to themselves if and only if none contains a line break |
| IcsExport.ExportEvent | routes/calendar_routes.py:1581-1598 | the lines of one event, optional ones exactly when they have a value |
| IcsExport.Export | routes/calendar_routes.py:1575-1601 | the header, every event's lines in turn and the footer, joined |
| IcsExport.FileIsFramed | routes/calendar_routes.py:1575-1600 | the file begins with its version, its product and the calendar's escaped name and ends with its footer |
| IcsExport.ExportReadsBack | routes/calendar_routes.py:1575-1601 | the file reads back line for line if and only if no uid or rule carries a line break; names, summaries, descriptions and locations may be any text |
| IcsRoundTrip.EventReadsBack | routes/calendar_routes.py:1582-1598 | from an event's lines a reader finds every property under its own name; texts, rule and dates as they were, line endings of texts as LF, and the uid, written unescaped, as it was if and only if it holds no escape |
| IcsRoundTrip.ScanEvents | routes/calendar_routes.py:1581-1598 | collecting lines between BEGIN and END gives every event's own lines, in order: no property line is mistaken for a marker |
| IcsRoundTrip.ExportRoundTrips | routes/calendar_routes.py:1561-1601 | when no uid or rule carries a line break, reading the exported text gives the calendar's name and all its events in order, for any names, summaries, descriptions and locations; every property is as it was if and only if no uid holds an escape |
| IcsImport.EnsurePositiveDuration | routes/calendar_routes.py:41-55 | the end comes after the start, is kept if it already did, and else is a day or an hour later |
| IcsImport.NewRow | routes/calendar_routes.py:1496-1540 | an event cannot be stored exactly when it is timed and ends on a bare date; a stored one ends after it starts; what it holds is stated by the five rows on ImportFacts that follow |
| ImportFacts.StoredStartIs | routes/calendar_routes.py:1511-1540 | the stored start plus the offset is the time as written; floating times and dates are stored as written; the flags say which it was, and texts and rule are the file's |
| ImportFacts.StoredEndIs | routes/calendar_routes.py:1515-1526 | a timed end, less its own offset, is stored if it comes after the start; else, and when there is none, the event lasts an hour |
| ImportFacts.StoredLastDayIs | routes/calendar_routes.py:1498-1510 | an all-day event ends on the midnight of its end's own day if that comes after the start; else, and when there is none, it lasts a day |
| ImportFacts.SameInstantSameRow | routes/calendar_routes.py:24-35 | two zoned spellings of one instant make the same row and are duplicates of the same stored rows |
| ImportFacts.MatchesExactly | routes/calendar_routes.py:1464-1479 | a stored row is a duplicate if and only if its summary and the moment of its start are the event's |
| IcsImport.TargetCalendar.ImportIcs | routes/calendar_routes.py:1445-1558 | the walk over the components, asking about stored rows only, reaches the specified rows and counts, or fails and leaves the rows as they were |
| IcsImport.ImportSucceedsExactly | routes/calendar_routes.py:1496-1526 | whatever the query answers, an import fails if and only if an event it would add is timed and ends on a bare date |
| IcsImport.StepKeepsRows | routes/calendar_routes.py:1480-1541 | a component leaves every row in its place, either as it was or, if it had no duration, with the default one, and adds at most one row, which has a duration |
| IcsImport.ImportKeepsRows | routes/calendar_routes.py:1480-1541 | after an import every stored row is as it was or, if it had no duration, has the default one, and every added row ends after it starts |
| IcsImport.RepairsThePicked | routes/calendar_routes.py:1480-1494 | a stored row is repaired if and only if the query answers with it for some event that has a uid |
| ImportFacts.RepairIs | routes/calendar_routes.py:1480-1494 | a repair changes the end of a row without duration to an hour or a day after its start, and nothing else |
| ImportFacts.RepairedIsTheChange | routes/calendar_routes.py:1480-1494 | the repaired count is the number of stored rows that differ after the import |
| IcsImport.ImportAdds | routes/calendar_routes.py:1462-1541 | an import adds one row for each event that has no uid or no row stored before the import with its start and summary; repeats within the file are all added |
| ImportFacts.ImportAppends | routes/calendar_routes.py:1511-1541 | the rows after the stored ones are the new rows of the added events, in the order of the file |
| ImportFacts.EveryEventIsCounted | routes/calendar_routes.py:1452-1541 | imported and skipped together are the number of events in the file |
| IcsImport.SecondImport | routes/calendar_routes.py:1460-1494 | importing a file again, whatever the query answers either time, succeeds, keeps every row that has a duration, and adds exactly the events with a start and no uid |
| IcsImport.ReimportIsIdempotent | routes/calendar_routes.py:1460-1494 | a second import changes no row, for every answer of the unordered query, if and only if every event with a start has a uid and every stored row without duration that such an event matches is its only match |
| IcsImport.AmbiguityShows | routes/calendar_routes.py:1471-1479 | with two matching rows, one of them without duration, there are answers under which the second import repairs a row |
| IcsImport.SteadyReimport | routes/calendar_routes.py:1471-1494 | when the query answers the second time as it did the first, a file whose events all carry a uid is imported again without any change, ambiguous rows included |
| IcsImport.ImportedEventsAreVisible | routes/calendar_routes.py:44-51 | every event of the file, new, repeated in it, duplicate or stored long ago without duration, has a matching row that passes the overlap test in every window that contains its start |
| IcsTransfer.EventArrives | routes/calendar_routes.py:1496-1540 | for every event what arrives is its row with LF line endings, a positive duration, whole days and no zone if all-day, and no deleted occurrences |
| IcsTransfer.ArrivesUnchangedExactly | routes/calendar_routes.py:1526-1540 | that is the row as it is read if and only if its texts have no carriage return, its duration is positive, an all-day event has whole days and no zone, and no occurrence of it was deleted |
| IcsTransfer.StrangersAreAppended | routes/calendar_routes.py:1462-1541 | events none of which meets a stored row are all added, in order, as they arrive, even if they resemble each other |
| IcsTransfer.TransferAddsAll | routes/calendar_routes.py:1445-1601 | exporting a calendar and importing the file always succeeds, and adds what arrives for each event, in order, and nothing else, if and only if no stored row of the target has the start and summary of an arrival |
| IcsTransfer.TransferIsExact | routes/calendar_routes.py:1445-1601 | it recreates every row as it is read, in order, and nothing else happens, if and only if no event meets a stored row, every event is plain, and none has a deleted occurrence |
| TransferListing.MovedSeriesListsTheSameExactly | routes/calendar_routes.py:776-777 | a moved series shows the same starts in every window if and only if no occurrence of its rule had been deleted |
| TransferListing.DeletedOccurrenceReturns | routes/calendar_routes.py:1335-1338 | a deleted occurrence, listed in no window before, is listed after the move in every window that holds it and is not truncated |
| OwnerLocks.LockKeysAreOrdered | core/database.py:486-486 | the keys are strictly ascending and are exactly the requested scopes, the empty one when none is requested |
| OwnerLocks.WaitsExactly | core/database.py:491-514 | a transaction waits if and only if another unfinished one has its next key and the row is there to be locked, or not there yet to be inserted |
| OwnerLocks.StepKeepsValid | core/database.py:491-517 | every lookup, insert, lost race, commit and abort keeps locks exclusive and every held key backed by a row |
| OwnerLocks.CommitLeavesItsRows | core/database.py:491-517 | a commit leaves a row for each key of its transaction and no other new one; nothing else changes the rows others see |
| OwnerLocks.SomeoneCanMove | core/database.py:480-482 | while any transaction is unfinished, one can take its next step or commit |
| OwnerLocks.ExclusiveAndDeadlockFree | core/database.py:474-517 | in every run of any number of transactions over any owner sets, no key is held twice and no reachable state is stuck |
| OwnerLocks.RunsAreBounded | core/database.py:491-517 | no schedule goes on for ever |
| OwnerLocks.EveryoneCanFinish | core/database.py:491-517 | from every reachable state there is a continuation, without an abort, that finishes everyone |
| OwnerLocks.OppositeOrdersCanStick | core/database.py:480-482 | without the sorting two transactions can wait for each other: the order is what the proof needs |
| EmailDefaults.AccountTable.DefaultsOf | routes/auth_routes.py:392-415 | the defaults of one owner, in the order EmailDefaultsFacts.DefaultsComeEarliestFirst spells out |
| EmailDefaults.AccountTable.RenameOwner | routes/auth_routes.py:392-441 | the lists, clearing and row-by-row relabelling of the transaction reach the table that EmailDefaultsFacts.RenameMovesExactly and RenameKeepsEarliest spell out |
| EmailDefaults.AccountTable.NormalizeDefaults | core/database.py:1941-1964 | the walk over the ordered defaults with its seen set and duplicate list reaches the table that EmailDefaultsFacts.MigrationClearsExactly spells out |
| EmailDefaults.DuplicatesHaveOlder | core/database.py:1951-1958 | the rows the walk marks are exactly those a quantified definition of "has an older default" names |
| Ordering.StringOrderIsLexicographic | core/database.py:1941-1949 | the order that breaks ties by id, and sorts lock keys and excluded dates, is that of a dictionary: a proper beginning first, else by the first character that differs |
| EmailDefaultsFacts.MigrationClearsExactly | core/database.py:1941-1958 | a default keeps its flag if and only if its owner has none created earlier, none with a creation time if it has none itself, and none of the same time with a smaller id; nothing else of any row changes |
| EmailDefaultsFacts.RenameMovesExactly | routes/auth_routes.py:422-440 | exactly the accounts of the old owner, letter case aside, go to the new one; ids, times and details stay, no flag is set, and accounts of others are untouched |
| EmailDefaultsFacts.RenameKeepsEarliest | routes/auth_routes.py:392-430 | when the defaults of the two owners have creation times, the merged default is the one of the destination created first, by id among equals; the one of the source if the destination had none; and no other |
| EmailDefaultsFacts.DefaultsComeEarliestFirst | routes/auth_routes.py:392-415 | in the list of defaults, of two with creation times the one created earlier comes first, by id among equals |
| EmailDefaultsLaws.ListStartsWithOldest | routes/auth_routes.py:392-415 | the ordered list names every default of the owner once, and its head is the oldest |
| EmailDefaultsLaws.MergedOwnersDefault | routes/auth_routes.py:416-421 | after the rename an account is the merged owner's default if and only if it was the destination's oldest default, or the source's oldest when the destination had none |
| EmailDefaultsLaws.MergedOwnerHasOneDefault | routes/auth_routes.py:416-430 | the merged owner has exactly one default if either side had one, and none otherwise |
| EmailDefaultsLaws.OldestExists | routes/auth_routes.py:400-413 | an owner with defaults has exactly one oldest |
| EmailDefaultsLaws.RenameTouchesOnlyTheTwoOwners | routes/auth_routes.py:422-440 | no account is lost, only owner and flag change, and other owners' accounts not at all |
| EmailDefaultsLaws.IndexHoldsAfterEachRelabel | routes/auth_routes.py:432-440 | the unique index is satisfied after every single row update, in any order of rows |
| EmailDefaultsLaws.MigrationKeepsOldest | core/database.py:1941-1958 | a default keeps its flag if and only if no default of its scope is older, and nothing else changes |
| EmailDefaultsLaws.MigrationSatisfiesIndex | core/database.py:1960-1965 | afterwards no scope has two defaults, so the index can be installed |
| EmailDefaultsLaws.MigrationLosesNoScope | core/database.py:1951-1958 | every scope that had a default still has one, its oldest |
| EmailDefaultsLaws.MigrationIsIdempotent | core/database.py:1941-1965 | running the migration again changes nothing |
| DeviceFlow.PendingDeviceFlowStore.PruneExpired | routes/device_flow.py:70-74 | exactly the entries past their expiry are gone |
| DeviceFlow.PendingDeviceFlowStore.Add | routes/device_flow.py:76-86 | exactly the entries past their expiry go; the new one may be polled at once, every so many seconds as the provider says, five if it says none and one if it says less, for as long as it says, 900 seconds if it says none and one if it says less |
| DeviceFlow.PendingDeviceFlowStore.GetPayload | routes/device_flow.py:88-94 | after pruning, the entry's payload or none |
| DeviceFlow.PendingDeviceFlowStore.ScheduleNext | routes/device_flow.py:101-106 | the entry's next poll is its unchanged interval, at least one second, from now; its payload and expiry, every other entry and a missing entry stay as they are |
| DeviceFlow.PendingDeviceFlowStore.SlowDown | routes/device_flow.py:108-115 | the interval becomes the provider's if it names a positive one, five seconds more if it names none, and one second if it is negative, so never less than one; the next poll is that far away and nothing else changes |
| DeviceFlow.PendingDeviceFlowStore.Pop | routes/device_flow.py:117-119 | exactly that entry is gone |
| DeviceFlow.ReschedulingHoldsBack | routes/device_flow.py:96-115 | after either rescheduling the throttle check holds a poll back exactly until the interval then in force has passed |
| DeviceFlow.SlowDownAddsFive | routes/device_flow.py:113-115 | without a new interval from the provider, slowing down adds the five seconds of section 3.5 of RFC 8628 |
| DeviceRoutes.DeviceStart | routes/device_flow.py:147-157 | the route's calls add up to a start of the transition system |
| DeviceRoutes.DevicePoll | routes/device_flow.py:159-185 | the route's calls add up to a run of lookup, throttle check, provider poll and rescheduling or removal; the reply follows from the entry, the clock and the provider's answer, and a finished login is gone |
| DeviceRoutes.DeviceCancel | routes/device_flow.py:187-191 | the route's call is a cancel of the transition system |
| DeviceRuns.StepIsInTime | routes/device_flow.py:147-191 | every start, store call, provider poll and cancel keeps: the next poll time lies at least the interval past the last poll |
| DeviceRuns.PollsAreSpaced | routes/device_flow.py:159-185 | in every run with a nondecreasing clock, a poll whose entry was still there at its throttle check comes at least the interval last put in force after the previous poll of that login, and that is at least one second |
| DeviceRuns.ThrottleSpacesExactly | routes/device_flow.py:96-115 | in every reachable state where a poll has found a login polled before, the throttle check lets no poll through before the interval last put in force has passed, at whatever time it is made, if and only if the entry is still there or that time has come |
| DeviceRuns.CancelLetsOnePollThrough | routes/device_flow.py:159-191 | a concrete run in which a cancel between lookup and check lets the provider be polled one second after the last poll |
| DeviceEndings.EndedLoginsStayEnded | routes/device_flow.py:168-191 | once authorized, refused, raised or cancelled, an id is never started or looked up again; only a poll already under way at a cancel may still ask |
| DeviceEndings.AtMostOneAnswer | routes/device_flow.py:174-179 | each start yields at most one authorized or refused answer |
| DeviceEndings.ExpiredLoginsAreNotPolled | routes/device_flow.py:70-74 | a successful lookup comes no later than the expiry its start announced |
| DeviceEndings.UnendedLoginsStayAvailable | routes/device_flow.py:70-94 | the counterpart: in every run, a login that was started, has not ended and is not past its expiry is found by the next lookup |
| DeviceEndings.AskFollowsFetch | routes/device_flow.py:162-169 | every provider poll has a successful lookup of the same login before it |
| EmailDraft.BuildEmailDocumentContent | mcp_servers/email_server.py:1551-1577 | the header lines in order, optional ones exactly when they have a value, the separator, the body |
| EmailDraftFacts.HeadersReadBack | mcp_servers/email_server.py:1563-1576 | every header of a draft stands under its own name: addressee and subject always, the others exactly when they have a value |
| EmailDraftFacts.LinesSplitBack | mcp_servers/email_server.py:1577-1577 | joined lines split back if and only if none of them has a line feed |
| EmailDraftFacts.DocumentReadsBack | mcp_servers/email_server.py:1551-1577 | a draft of single-line header fields is read back in full from its document: the body after the separator, and each field under its name in the head |
| EmailDraft.MergeEmailReplyBody | mcp_servers/email_server.py:1580-1599 | the split and the marker scan reach the specified merge, content without a separator becoming the bare reply |
| EmailDraftFacts.MergeWithoutHeaders | mcp_servers/email_server.py:1581-1583 | content without a separator gives the bare reply, untrimmed |
| EmailDraftFacts.MergedTextIs | mcp_servers/email_server.py:1583-1599 | the merged text is the header block, the separator, the trimmed reply and, after a blank line, the text from the first of the three markers on, trimmed; with an empty reply that text stands alone |
| EmailDraft.QuoteIndexIsFirst | mcp_servers/email_server.py:1590-1594 | the scan finds the earliest occurrence of any of the three markers, and none exactly when there is none |
| EmailDraft.MergeKeepsHeadersAndQuote | mcp_servers/email_server.py:1581-1599 | the header block is kept, the trimmed reply comes first, and the quoted chain is kept exactly when the reply has no marker and grows otherwise |
| EmailDraft.LastReplyWins | mcp_servers/email_server.py:1580-1599 | replacing a reply twice is replacing it once if and only if the first reply held no quote marker |
| EmailDraft.BuiltDocumentSplits | mcp_servers/email_server.py:1563-1584 | a built document splits back into its header block and body, whatever the body, if and only if no header field holds the separator line or ends in its beginning |
| EmailDraft.BlockSplits | mcp_servers/email_server.py:1577-1584 | the same for any block of lines in front of the separator |
| EmailDraft.SingleLineHeadersSplit | mcp_servers/email_server.py:1563-1584 | with no line feed in any header field it always splits back |
| UnsubscribeDedupe.Dedupe | mcp_servers/email_server.py:632-654 | the dictionary loop yields, per key in first-seen order, the group's representative, count and uids as defined from the group's members; each representative has its group's key, and the counts of the result add up to the number of candidates |
| UnsubscribeDedupe.KeysAgreeExactly | mcp_servers/email_server.py:619-629 | two candidates fall together if and only if, case and surrounding whitespace aside, they have the same list and the same target, the sender standing in for a missing one; without a list the same target and kind; without either the same sender and subject |
| UnsubscribeDedupe.MembersKeepOrder | mcp_servers/email_server.py:635-654 | a group is the candidates of its key, every one of them, in the order of the input |
| UnsubscribeDedupe.UidsKeepOrder | mcp_servers/email_server.py:641-646 | a group's uids are its first member's, empty or not, then every later one that is not empty, in order |
| UnsubscribeDedupe.GroupOfIsSummary | mcp_servers/email_server.py:643-653 | updating a group candidate by candidate gives its earliest best member, its size and its uids |
| UnsubscribeDedupe.KeysAreDistinctAndComplete | mcp_servers/email_server.py:635-637 | the keys of the output groups are pairwise distinct and are exactly the keys of the input |
| UnsubscribeDedupe.OutputFollowsFirstOccurrence | mcp_servers/email_server.py:641-654 | groups come out in the order their keys first occur |
| UnsubscribeDedupe.BestIsEarliestMaximum | mcp_servers/email_server.py:647-653 | the representative is in its group, nothing there scores higher and nothing before it as high |
| UnsubscribeDedupe.CountsAddUp | mcp_servers/email_server.py:639-643 | the sizes of the groups add up to the number of candidates |
| UnsubscribeDedupe.MembersAreTheKeysCandidates | mcp_servers/email_server.py:619-637 | a group holds every candidate of its key, as often as it occurs, and no other |

## Left out

- DeviceRuns.PollsAreSpaced: stated for polls whose throttle check still saw the entry, because without that it is false of the code; DeviceRuns.ThrottleSpacesExactly is the exact condition.
- Recurrence.ListEvents: the final sort by rendered start time is not modelled, so the result is fixed up to that reordering; parsing of the window bounds and the remaining event fields are not modelled.
- Recurrence.NaiveIsExact: the occurrences of a rule (`rrulestr`, `xafter`) are a given strictly increasing sequence starting no earlier than the event; rendering of times (`strftime`) is a parameter of fixed width.
- DefaultCalendarRuns.CallersConverge: concurrent rename or delete of calendars is not among the steps, so the re-raised integrity error of a vanished winner cannot arise; `uuid5` is a parameter assumed injective.
- SessionRuns.CacheIsInvisible: rows are kept in timestamp order and each new row is assumed later than the ones before; message content and timestamps are not modelled, a message being its role and row id.
- SessionRuns.StepRefines: runs without failed writes only, since after a failed one rows and transcript are cut at the same position and may part company; HydrationClosesTheGap covers failures.
- SessionCache.SessionManager.AddMessageTo: the transcripts of stale objects are not part of the state of a run; messages are values, so one message object shared by two transcripts is not modelled; a database exception is a flag that the write failed.
- AuthDeletion.DeletedNameNeverAuthenticates: rename is one step, although its relabelling of logins runs under a second lock.
- Auth.AuthManager.CreateUser: password hashing, creation times and writing the file are not modelled; lower-casing is that of ASCII.
- EmailDefaults.AccountTable.RenameOwner: only the email-account table of the transaction is modelled; where missing creation times sort is a parameter.
- OwnerLocks.ExclusiveAndDeadlockFree: the path with row locks; the SQLite path is one `BEGIN IMMEDIATE`. The lock loop is a transition system rather than a method because other transactions run between its steps.
- DeviceRuns.StepIsInTime: provider callbacks are synchronous, as in the routes shown, so no other poll runs inside a poll; HTTP checks and responses are not modelled.
- IcsImport.TargetCalendar.ImportIcs: parsing the file is a library's work; fresh uids, naming and creating the target calendar are not modelled. An end that is a bare date on a timed event fails the import, as the comparison does in the code.
- IcsTransfer.TransferIsExact: color, importance and event type of an event do not travel, cancelled events are not exported, and none of these columns is part of the rows compared; rules are assumed to be in the form the library writes; a reader's unfolding of long lines is not modelled, since export does not fold.
- UnsubscribeDedupe.Dedupe: a candidate's fields that the loop only carries along are not listed.
- Start-up migrations and loading of the auth file, password and TOTP checks, session metadata edits, archiving and `cleanup_empty_sessions`: they fix initial states or touch fields outside these models.
- Sync with remote calendars, natural-language dates, IMAP and SMTP, model calls, the bearer-token cache, routes and headers: calls into other systems, or code that would add only easy members.
