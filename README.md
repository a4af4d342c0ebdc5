# College Connect: attendance, moderation, chat and reset rules in Dafny

This project models the rule-bearing core of College Connect, a Next.js student portal. The database becomes a handful of tables (`seq`s in natural order). Hashing, JWTs, random bytes, URI decoding and the clock become parameters. What remains is stated and proved in Dafny.

The model covers:

- **Attendance page** (`attendance_metrics.dfy`, `attendance_projection.dfy`, `attendance_schedule.dfy`, `attendance_timeline.dfy`):
  - the overall percentage, weighted by class counts;
  - the number of classes that can still be missed (`bunkAllowance`);
  - the number of classes that must still be attended (`classesToAttend`);
  - the projected percentage with planned misses and its safe/unsafe verdict;
  - the projection view's per-course input table with its clamped −/+ buttons;
  - matching timetable rows to a course and rewriting them into day-wise entries;
  - the two in-place, stable date sorts. Past entries are sorted latest first and upcoming entries earliest first. The two lists are never merged.

  All percentage rules are exact rational arithmetic. Each boundary is proved by cross-multiplication, e.g. `p/(t+x) ≥ target/100 ⇔ 100·p ≥ target·(t+x)`.
- **Older attendance page** (`attendance_legacy.dfy`): the absent count, the overall colour band and the case-insensitive status classes.
- **Moderation** (`admin_auth.dfy`, `ban_user.dfy`, `login.dfy`, `update_user.dfy`):
  - the `token=` cookie parser shared by both admin routes;
  - admin authentication;
  - who may ban whom, and the optional expiry of a ban;
  - the user and admin-log updates of a ban or unban;
  - the login flow, which hides whether an account exists and lifts an expired ban automatically;
  - the admin edit rule and the unique-username check of the update route.
- **Admin users page** (`admin_users_page.dfy`):
  - the role filter and the search box;
  - the stat tiles;
  - the display name;
  - the Active/Offline badge and its "time ago" text;
  - the Edit, Ban and Delete buttons, proved against what the routes accept.

  The page offers Ban in two cases where the ban route refuses:
  - an admin looking at a tester (the route answers 403);
  - a superadmin looking at another superadmin (the route answers 400).

  The model keeps both sides as written and proves the gap (`BanButtonOverPromises`).
- **Chat** (`reactions.dfy`, `chat_page.dfy`, `chat_friends.dfy`):
  - the reaction toggle: remove the first entry of this user with this emoji, else append one. The route applies it and so does the page's optimistic update;
  - the reaction bubbles;
  - the unread badge, and clearing it when a friend is selected;
  - the send box;
  - the friends route: mutual follows, the five-minute online window, unread counts, and the caller's activity stamp.
- **Password reset requests** (`request_reset.dfy`): the user's unused tokens are deleted, then one new token valid for fifteen minutes is inserted.

The shared modules are:

- `wrappers.dfy`: `Option`;
- `seqs.dfy`: first index, filter and count;
- `strings.dfy`:
  - ASCII case mapping;
  - the ECMAScript `trim` white-space set;
  - split, join, substring search;
  - decimal printing;
  - code-unit order;
- `store.dfy`: the documents and the `Database` class holding the tables.

Every route handler is a method on the `Database` that modifies only the tables the route writes. Each handler's postcondition gives the exact response and the exact new tables for every branch, in the route's order.

## Model

| member | source | states |
|---|---|---|
| AttendanceMetrics.KeyPrefix | src/app/attendance/page.tsx:112-114 | the key prefix is never empty: the course code, else a non-zero course id, else "C" |
| AttendanceMetrics.CourseKeySeparatesComponents | src/app/attendance/page.tsx:112-114 | two components of one course code share a key exactly when their component names agree |
| AttendanceMetrics.CourseKeyInjective | src/app/attendance/page.tsx:112-114 | for non-empty course codes without '-', equal keys mean equal code and equal component name |
| AttendanceMetrics.OverallPercentageCases | src/app/attendance/page.tsx:188-195 | 0 when no course has held a class; otherwise the figure times Σtotal equals 100·Σpresent over the courses with classes, and that total is positive |
| AttendanceMetrics.OverallIsWeightedAverage | src/app/attendance/page.tsx:188-195 | the overall figure is the average of the course percentages weighted by their class counts |
| AttendanceMetrics.OverallIgnoresEmptyCourse | src/app/attendance/page-old.tsx:98-103 | a course with no classes held, wherever it stands, does not change the figure |
| AttendanceMetrics.OverallSplitInvariant | src/app/attendance/page.tsx:188-195 | splitting a course into two parts with the same present and total sums leaves the figure unchanged |
| AttendanceMetrics.OverallPercentageBounded | src/app/attendance/page.tsx:188-195 | with present ≤ total in every record the figure lies in 0..100 |
| AttendanceMetrics.OverallWeightedExample | src/app/attendance/page.tsx:188-195 | 5/10 and 90/100 give 9500/110 %, not the 70 % an unweighted average would give |
| AttendanceMetrics.BunkAllowanceExact | src/app/attendance/page.tsx:200-206 | for total > 0 and target in 1..100: m more misses keep the course at the target exactly when it is at the target now and m ≤ bunkAllowance |
| AttendanceMetrics.BunkAllowanceKeepsTarget | src/app/attendance/page.tsx:200-206 | at the target now, missing exactly bunkAllowance more classes keeps 100·present ≥ target·(total+x) |
| AttendanceMetrics.BunkAllowanceOneMoreFails | src/app/attendance/page.tsx:200-206 | missing bunkAllowance+1 more classes drops below the target |
| AttendanceMetrics.ClassesToAttendExact | src/app/attendance/page.tsx:209-219 | for target < 100 and total > 0: attending k more classes reaches the target exactly when k ≥ classesToAttend |
| AttendanceMetrics.ClassesToAttendSuffices | src/app/attendance/page.tsx:209-219 | attending classesToAttend more classes reaches the target |
| AttendanceMetrics.ClassesToAttendMinimal | src/app/attendance/page.tsx:209-219 | when classesToAttend is positive, one class fewer does not reach the target |
| AttendanceMetrics.ClassesToAttendFullTarget | src/app/attendance/page.tsx:214-215 | at target 100 the answer is 0 although, with a class missed, no number of attended classes reaches 100 % |
| AttendanceMetrics.ProjectedPercentMeaning | src/app/attendance/page.tsx:450-456 | 0 when total plus max(planned, 0) is 0; otherwise the figure times that total equals 100·present (planned misses enlarge only the denominator) |
| AttendanceMetrics.ProjectedPercentNonIncreasing | src/app/attendance/page.tsx:450-456 | planning more misses never raises the projected percentage |
| AttendanceMetrics.IsSafeExact | src/app/attendance/page.tsx:1123-1127 | safe exactly when the enlarged total is positive and 100·present ≥ target·(total + max(planned, 0)) |
| AttendanceMetrics.SafeIffWithinAllowance | src/app/attendance/page.tsx:1123-1127 | for a course with classes, safe exactly when it is at the target now and the planned misses are within bunkAllowance |
| AttendanceMetrics.WorkedExample | src/app/attendance/page.tsx:200-219 | 28 of 40 at 75 %: 8 classes to attend and no allowance; at 60 % it may miss 6; 5 planned misses at 75 % are unsafe |
| AttendanceProjection.InitialInputs | src/app/attendance/page.tsx:392-398 | the `forEach` builds a record whose keys are exactly the courses' keys, all set to 0 |
| AttendanceProjection.ProjectionView.constructor | src/app/attendance/page.tsx:80-82 | closed, target 75, empty input table |
| AttendanceProjection.ProjectionView.Open | src/app/attendance/page.tsx:392-398 | opens with every course key at 0 and keeps the target |
| AttendanceProjection.ProjectionView.Close | src/app/attendance/page.tsx:401-403 | closes and keeps target and inputs |
| AttendanceProjection.ProjectionView.SetTarget | src/app/attendance/page.tsx:1097-1104 | the slider sets a target in 1..100 and changes nothing else |
| AttendanceProjection.ProjectionView.Decrement | src/app/attendance/page.tsx:1149-1154 | "−" sets that key to max(0, planned − 1), other keys unchanged, inputs stay ≥ 0 |
| AttendanceProjection.ProjectionView.Increment | src/app/attendance/page.tsx:1164-1169 | "+" sets that key to planned + 1, other keys unchanged |
| AttendanceProjection.ProjectionView.Row | src/app/attendance/page.tsx:1122-1127 | a row's planned count is the key's value (0 if unset) and never negative, its allowance is bunkAllowance at the slider's target, and for a course with classes it is safe exactly when within the allowance |
| AttendanceProjection.IncrementThenDecrement | src/app/attendance/page.tsx:1149-1169 | "+" then "−" restores the planned count |
| AttendanceSchedule.MatchesCourseIff | src/app/attendance/page.tsx:324-331 | a row is kept exactly when its lower-cased code contains the non-empty lower-cased course code or its name contains the non-empty course name; the exact-name disjunct adds nothing |
| AttendanceSchedule.MatchesCourseIgnoresCase | src/app/attendance/page.tsx:324-331 | changing the case of a row's code and name does not change the match |
| AttendanceSchedule.NormalizeDateRewrites | src/app/attendance/page.tsx:334-341 | "DD/MM/YYYY", with anything after a further '/', becomes "YYYY-MM-DD" when the three parts are non-empty |
| AttendanceSchedule.NormalizeDateTooFewParts | src/app/attendance/page.tsx:334-341 | fewer than three '/'-separated parts give "" |
| AttendanceSchedule.NormalizeDateEmptyPart | src/app/attendance/page.tsx:334-341 | an empty day, month or year part gives "" |
| AttendanceSchedule.TimeSlotAfterFirstColon | src/app/attendance/page.tsx:345-351 | the time slot is the trimmed text after the first ':' |
| AttendanceSchedule.ToEntry | src/app/attendance/page.tsx:332-360 | every entry has status "Scheduled" and isUpcoming set, with the normalised date and time slot |
| AttendanceSchedule.NormalizeSchedule | src/app/attendance/page.tsx:323-360 | one entry per matching row, each "Scheduled" and upcoming |
| AttendanceSchedule.NormalizeScheduleMembers | src/app/attendance/page.tsx:323-360 | every matching row's entry is in the output and every output entry comes from a matching row |
| AttendanceTimeline.NotBeforeTransitive | src/app/attendance/page.tsx:266-273 | the comparator's "not before" relation is transitive, as a stable sort requires |
| AttendanceTimeline.SortByDateSorted | src/app/attendance/page.tsx:266-273 | the stable sort's result is ordered by date key (descending or ascending) |
| AttendanceTimeline.SortByDatePermutation | src/app/attendance/page.tsx:363-370 | the sorted list is a permutation of the input |
| AttendanceTimeline.SortByDateStable | src/app/attendance/page.tsx:363-370 | entries with equal date keys keep their relative order |
| AttendanceTimeline.InsertStep | src/app/attendance/page.tsx:266-273 | shifting one element into the sorted prefix of the array leaves the prefix as the stable insertion of that element and the rest untouched |
| AttendanceTimeline.SortEntries | src/app/attendance/page.tsx:266-273 | the in-place sort leaves the array equal to the stable date sort of its old contents (latest first for past entries, earliest first at 363-370) |
| AttendanceLegacy.AbsentMeaning | src/app/attendance/page-old.tsx:106-107 | absent = max(total − present, 0): never negative, total − present when present ≤ total, 0 exactly when present ≥ total |
| AttendanceLegacy.OverallColorMonotone | src/app/attendance/page-old.tsx:156-161 | a higher percentage never gets a worse band |
| AttendanceLegacy.OverallColorExact | src/app/attendance/page-old.tsx:97-104 | emerald exactly when some course has classes and 100·Σpresent ≥ 75·Σtotal; red when no course has classes |
| AttendanceLegacy.ClassifyStatusIgnoresCase | src/app/attendance/page-old.tsx:432-439 | the PRESENT/ABSENT/other class ignores case; a missing status is "other" |
| AttendanceLegacy.ClassifyStatusExamples | src/app/attendance/page-old.tsx:432-439 | "Present" is present, "absent" is absent, "Leave" is other |
| Store.FindUser | src/app/api/admin/ban-user/route.ts:64-67 | `findById` gives the first user with that id, or none exactly when no user has it |
| Store.FindMessage | src/app/api/chat/reaction/route.ts:29-32 | `findById` gives the first message with that id, or none exactly when no message has it |
| Store.Database.SaveUser | src/app/api/admin/ban-user/route.ts:103 | `save()` replaces just that user's record; ids stay unique and the other tables are unchanged |
| AdminAuth.TrimAll | src/app/api/admin/ban-user/route.ts:18 | every cookie part is trimmed, none dropped |
| AdminAuth.GetTokenFromRequest | src/app/api/admin/ban-user/route.ts:14-25 | no token without a header; otherwise the value after "token=" of the first trimmed part that starts with it, decoded, or a decode failure |
| AdminAuth.FindTokenPart | src/app/api/admin/update-user/route.ts:18-24 | the loop with its early return yields the first "token=" part's decoded value, or none when no part starts with "token=" |
| AdminAuth.TokenFirstWins | src/app/api/admin/ban-user/route.ts:19-22 | a header starting with "token=v" yields v decoded, whatever follows the next ';' |
| AdminAuth.TokenSkipsOtherCookie | src/app/api/admin/ban-user/route.ts:19-23 | a leading cookie that is not the token is skipped |
| AdminAuth.AuthenticateAdmin | src/app/api/admin/ban-user/route.ts:31-47 | a passing actor exists and is admin or superadmin; refusals are 401, 403 or 500 (decode failure) |
| AdminAuth.AuthenticateAdminExact | src/app/api/admin/update-user/route.ts:31-47 | the actor passes exactly when a non-empty token verifies and names an existing staff user; no token or an empty one gives 401 "Not logged in" |
| BanUser.BanRefusalExact | src/app/api/admin/ban-user/route.ts:69-82 | a staff actor may act exactly when admin→student or superadmin→non-superadmin; admin→superadmin is 403 and superadmin→superadmin is 400 |
| BanUser.BannedUntil | src/app/api/admin/ban-user/route.ts:84-91 | an expiry exists exactly when banning with durationMinutes > 0, and it is now + minutes·60000 |
| BanUser.ApplyBanProperties | src/app/api/admin/ban-user/route.ts:93-101 | only the three ban fields change; unban after ban leaves no trace of it; a second ban replaces the first |
| BanUser.LogEntry | src/app/api/admin/ban-user/route.ts:105-125 | the log action is BAN_USER exactly when banning, with actor and target ids, and an empty reason is stored as none |
| BanUser.BanFields | src/app/api/admin/ban-user/route.ts:84-101 | the field assignments on the target give exactly the record with the ban applied and the expiry the duration rule gives |
| BanUser.SaveAndLog | src/app/api/admin/ban-user/route.ts:84-125 | the target's record is replaced by its banned or unbanned version, which is returned, and one entry is appended to the admin log; messages, follows and reset tokens are unchanged |
| BanUser.Post | src/app/api/admin/ban-user/route.ts:27-127 | responses in the route's order (401, 403, 400, 404, 403/400, 200); every refusal leaves users and log unchanged and returns no user; success replaces the target by its banned/unbanned record, appends one log entry and returns that record beside "OK" |
| BanUser.Handle | src/app/api/admin/ban-user/route.ts:41-127 | the same effect and reply for an already parsed token |
| Login.LookupForLogin | src/app/api/auth/login/route.ts:31-34 | the lookup uses studentId when given, otherwise email; none exactly when no user matches that field |
| Login.AfterLogin | src/app/api/auth/login/route.ts:45-74 | past the ban check the record is unbanned, an expired ban's reason and expiry are cleared, and lastActiveAt is now |
| Login.Post | src/app/api/auth/login/route.ts:22-80 | 400 for missing fields, 401 for unknown user or wrong password, 403 with reason and expiry while banned, otherwise a token for the user; only a successful login changes the table |
| Login.LoginHidesAccounts | src/app/api/auth/login/route.ts:36-43 | an unknown account and a wrong password give the same 401 "Invalid credentials" and the same unchanged table |
| Login.TimedBanLifecycle | src/app/api/auth/login/route.ts:47-57 | after a ban of d > 0 minutes at t0 the user is still banned exactly while now < t0 + d·60000; afterwards login lifts the ban |
| Login.PermanentBanAndUnban | src/app/api/auth/login/route.ts:58-69 | a ban without a positive duration never expires; after an unban login is not blocked |
| UpdateUser.FindByUsername | src/app/api/admin/update-user/route.ts:105 | the first user holding the username, or none exactly when nobody holds it |
| UpdateUser.RenameKeepsUnique | src/app/api/admin/update-user/route.ts:104-110 | an accepted rename changes only the username, which is stored trimmed as the schema's `trim: true` does, and keeps usernames unique |
| UpdateUser.RenameExact | src/app/api/admin/update-user/route.ts:104-110 | a new username differing from the current one is refused exactly when some user already holds its trimmed form (Mongoose trims the `findOne` filter); otherwise the trimmed form is set |
| UpdateUser.RenamePaddedOwnName | src/app/api/admin/update-user/route.ts:104-107 | a user typing their own username with a leading space passes the `!==` test and is refused with "Username already taken", because the trimmed lookup finds their own record |
| UpdateUser.Post | src/app/api/admin/update-user/route.ts:27-110 | refusals in the route's order (401, 403, 400, 404, 403, 400 "Username already taken" when the trimmed name is held), else the target's edited record with the trimmed name |
| UpdateUser.Handle | src/app/api/admin/update-user/route.ts:41-110 | the same outcome for an already parsed token, with the raw name in the `!==` test and the trimmed name in the lookup and the assignment |
| AdminUsersPage.FilteredUsersExact | src/app/admin/users/page.tsx:96-111 | the list holds exactly the table's users that pass the role filter and the search, in order; "all" with no search lists everyone |
| AdminUsersPage.SearchIgnoresCase | src/app/admin/users/page.tsx:99-108 | upper-casing the typed query lists the same users |
| AdminUsersPage.HiddenByRoleButtons | src/app/admin/users/page.tsx:96-97 | role-less users and superadmins pass no role button |
| AdminUsersPage.TilesPartition | src/app/admin/users/page.tsx:306-325 | the Students and Admins tiles plus the testers count every user once; the Banned tile never exceeds the total |
| AdminUsersPage.TilesVersusButtons | src/app/admin/users/page.tsx:309-319 | the Students tile exceeds the Student button's list by the role-less users, the Admins tile exceeds the Admin button's list by the superadmins |
| AdminUsersPage.StudentTileVersusButton | src/app/admin/users/page.tsx:309-313 | the Students tile counts the Student button's list plus every user without a role |
| AdminUsersPage.AdminTileVersusButton | src/app/admin/users/page.tsx:315-319 | the Admins tile counts the Admin button's list plus every superadmin |
| AdminUsersPage.DisplayName | src/app/admin/users/page.tsx:360 | never empty; the name when it is non-empty |
| AdminUsersPage.DisplayNameFallbacks | src/app/admin/users/page.tsx:360 | without a name: "first last" when both are present with no surrounding white space, "No name" when neither is |
| AdminUsersPage.ActiveIsOnline | src/app/admin/users/page.tsx:400-401 | the page's Active test agrees with the friends route's online test |
| AdminUsersPage.StatusBadge | src/app/admin/users/page.tsx:394-424 | "Banned" exactly for banned users, "Active" exactly for unbanned users seen within five minutes |
| AdminUsersPage.AgoTextUnits | src/app/admin/users/page.tsx:403-416 | the first of y, mo, d, h, m that the seconds strictly exceed gives the whole number of those units, else "Just now" |
| AdminUsersPage.AgoTextStep | src/app/admin/users/page.tsx:405-414 | one unit of the table: its text when the seconds strictly exceed the unit, otherwise the rest of the table decides |
| AdminUsersPage.UnitStep | src/app/admin/users/page.tsx:405-406 | one `interval > 1` test on the real quotient: it fires exactly when the seconds exceed the unit, and then gives the floor of the quotient followed by the suffix |
| AdminUsersPage.TimeAgo | src/app/admin/users/page.tsx:403-416 | the step-by-step `interval` computation, in real division with floor, yields the units-table text for the elapsed whole seconds |
| AdminUsersPage.JustNowExact | src/app/admin/users/page.tsx:403-416 | "Just now" appears exactly for at most 60 seconds, including a date in the future |
| AdminUsersPage.EditButtonMatchesRoute | src/app/admin/users/page.tsx:448 | Edit is shown exactly when the update route lets that viewer edit that user |
| AdminUsersPage.BanRouteShowsButton | src/app/admin/users/page.tsx:462 | whatever the ban route accepts has a Ban button |
| AdminUsersPage.BanButtonOverPromises | src/app/admin/users/page.tsx:462 | Ban is shown to an admin on a tester (the route says 403) and to a superadmin on another superadmin (the route says 400) |
| AdminUsersPage.DeleteImpliesBan | src/app/admin/users/page.tsx:477 | Delete is only offered to a superadmin, on a non-staff user other than themselves, where Ban is offered too |
| Reactions.FindIndex | src/app/api/chat/reaction/route.ts:40-42 | the index of the first entry with this user and emoji, or −1 exactly when there is none |
| Reactions.Reacted | src/app/api/chat/reaction/route.ts:34-54 | the toggle changes only the reactions of the message, which exist afterwards |
| Reactions.ToggleCount | src/app/api/chat/reaction/route.ts:44-54 | the toggled pair's count goes from 0 to 1, and otherwise down by one |
| Reactions.ToggleKeepsOtherCounts | src/app/api/chat/reaction/route.ts:39-54 | the count of every other (user, emoji) pair is unchanged |
| Reactions.ToggleKeepsOthers | src/app/api/chat/reaction/route.ts:39-54 | all other entries stay, in their order |
| Reactions.ToggleTwice | src/app/api/chat/reaction/route.ts:39-54 | toggling twice from "not reacted" restores the list |
| Reactions.ToggleKeepsAtMostOnce | src/app/api/chat/reaction/route.ts:39-54 | at most one entry per (user, emoji) stays so, and then the entry is present afterwards exactly when it was absent |
| Reactions.Post | src/app/api/chat/reaction/route.ts:8-58 | 401 without a valid token, 400 for a missing id or emoji, 404 for an unknown message (tables unchanged), else that message is replaced by its toggled version and returned |
| ChatPage.BadgeExact | src/app/chat/page.tsx:188-191 | no badge for a missing or non-positive count, "99+" exactly above 99, otherwise the count in decimal |
| ChatPage.ClearUnread | src/app/chat/page.tsx:111 | the chosen friend's count becomes 0 (no badge); every other friend is unchanged |
| ChatPage.ChatContent.constructor | src/app/chat/page.tsx:44-46 | no friends, none selected, loading |
| ChatPage.ChatContent.SelectFriend | src/app/chat/page.tsx:108-112 | selects the friend and clears only their badge |
| ChatPage.ChatContent.FriendsLoaded | src/app/chat/page.tsx:75-90 | a poll replaces the list; with a `friendId` in the address and nothing selected, the first friend with that id is selected and its badge cleared |
| ChatPage.ReactLocally | src/app/chat/page.tsx:315-327 | messages with another id are unchanged; a message with the id gets the toggle |
| ChatPage.ToggleCopy | src/app/chat/page.tsx:317-324 | copy-then-splice-or-push equals the toggle on the message's reactions (absent ones as empty) |
| ChatPage.LocalAgreesWithRoute | src/app/chat/page.tsx:315-327 | with distinct message ids the optimistic update equals the route's stored update, and changes nothing when the route finds no message |
| ChatPage.DedupSpec | src/app/chat/page.tsx:414 | `Array.from(new Set(...))` keeps every emoji once, ordered by first appearance |
| ChatPage.DedupMembers | src/app/chat/page.tsx:414 | the set keeps exactly the emojis that occur |
| ChatPage.DedupDistinct | src/app/chat/page.tsx:414 | no emoji is kept twice |
| ChatPage.DedupFirstOrder | src/app/chat/page.tsx:414 | the kept emojis are in the order of their first occurrence |
| ChatPage.BubblesSpec | src/app/chat/page.tsx:412-418 | at most three bubbles for distinct occurring emojis, each with its count (≥ 1); with three or fewer distinct emojis all appear |
| ChatPage.BubblesShape | src/app/chat/page.tsx:414-416 | the bubbles are the first min(distinct, 3) distinct emojis, each with the number of reactions carrying it |
| ChatPage.BubbleCountsPositive | src/app/chat/page.tsx:414-416 | every bubble counts at least one reaction |
| ChatPage.BubblesCoverAll | src/app/chat/page.tsx:414-416 | with at most three distinct emojis, every reaction's emoji has a bubble |
| ChatPage.ChatPanel.constructor | src/app/chat/page.tsx:238-243 | empty messages and input, not sending, picker closed |
| ChatPage.ChatPanel.Send | src/app/chat/page.tsx:282-308 | blank input sends nothing and changes nothing; otherwise the untrimmed text is posted, the box emptied, a delivered message appended, and the text restored only when the request throws |
| ChatPage.ChatPanel.AddEmoji | src/app/chat/page.tsx:310-312 | the emoji is appended to the input |
| ChatPage.ChatPanel.React | src/app/chat/page.tsx:314-338 | the optimistic toggle is applied and (messageId, emoji) is posted |
| ChatPage.BlankNeverSends | src/app/chat/page.tsx:284 | all-white-space input trims to empty, so it is not sent |
| ChatFriends.IsUserOnlineWindow | src/app/api/chat/friends/route.ts:10-14 | missing is offline; a stamp is online exactly when now − stamp < 5 min; later stamps are no less online |
| ChatFriends.FollowingIdsExact | src/app/api/chat/friends/route.ts:37-38 | the following ids are exactly those the caller follows |
| ChatFriends.FriendIdsExact | src/app/api/chat/friends/route.ts:41-46 | the friend ids are exactly the users in a mutual follow with the caller |
| ChatFriends.FriendUsersMutual | src/app/api/chat/friends/route.ts:36-51 | the friend list holds exactly the users in a mutual follow with the caller |
| ChatFriends.UnreadCountAfterSend | src/app/api/chat/friends/route.ts:84-88 | one new message raises a friend's unread count by one exactly when it is unread, from them, to the caller |
| ChatFriends.FriendViews | src/app/api/chat/friends/route.ts:83-101 | one view per friend, with its online flag and its count of unread messages to the caller |
| ChatFriends.Touch | src/app/api/chat/friends/route.ts:34 | only the caller's record changes, and its lastActiveAt becomes now |
| ChatFriends.Get | src/app/api/chat/friends/route.ts:16-103 | 401 exactly without a valid token, with the tables unchanged; for a valid token always the friend list, the caller's stamp set, and the friend views computed over the updated table |
| ChatFriends.BuildUnreadMap | src/app/api/chat/friends/route.ts:74-77 | the map's keys are the group ids and each value is the count of the last group with that id |
| RequestReset.BaseUrl | src/app/api/auth/request-reset/route.ts:8-9 | the configured URL when set, else the local default; never empty |
| RequestReset.LookupForReset | src/app/api/auth/request-reset/route.ts:27-30 | a given email decides the lookup alone, otherwise studentId; none exactly when no user matches that field |
| RequestReset.ReissuedSingleLiveToken | src/app/api/auth/request-reset/route.ts:46-55 | afterwards the user's unused tokens are exactly the new one, expiring 900000 ms from now |
| RequestReset.ReissuedKeepsOthers | src/app/api/auth/request-reset/route.ts:40-44 | used tokens and other users' tokens stay, in order |
| RequestReset.Post | src/app/api/auth/request-reset/route.ts:11-65 | 400 without email and studentId; an unknown user gets the generic message with the table unchanged; otherwise purge, insert and reply with base + "/reset-password/" + token |

## Left out

- Database, network and framework calls are not modelled as such:
  - Mongoose queries are functions over `seq` tables, taken in natural order;
  - `save`, `create` and `deleteMany` are table assignments;
  - `fetch` responses are the parameter `SendOutcome` or the values passed in.
- JWT verification, `bcrypt.compare`, `decodeURIComponent`, `crypto.randomBytes` and `Date.now()` are parameters. The token's form (64 hex digits) is not constrained.
- Exceptions are mostly left out. Only the decode failure in the cookie parser is modelled; it leads to the 500 answer. Database failures, malformed JSON and ObjectId casting errors (which would answer 500) are not modelled.
- AttendanceMetrics.ClassesToAttend: computed in exact rational arithmetic. The page uses binary floating point, which can differ at an exact boundary. For example, with target 90 and 8 of 10 attended, floating point may round (0.9·10 − 8)/(1 − 0.9) above 10 and print 11 where the exact answer is 10 (not executed).
- AttendanceMetrics.BunkAllowance: computed in exact rational arithmetic rather than floating point, for the same reason.
- Percentages are `real` numbers. Their display is not modelled: `toFixed`, progress-bar widths and the course-card verdict at `page.tsx:848`, which uses the server-supplied `percentage`.
- The server-side attendance, day-wise and schedule endpoints are not part of this model. Entries arrive in the shape the page reads.
- `localeCompare` is modelled as code-unit order. For ISO dates this is the same as the locale collation, but the model does not claim it for any other string.
- Case mapping is ASCII only; Unicode case folding is not modelled.
- The weekday name comes from `toLocaleDateString` and is a parameter.
- The week and month windows computed with `toISOString` are left out, as are CSV export and printing. The "remember me" storage is also left out.
- UpdateUser.Post: returns the edited record instead of saving it. The route's own save and its logging lie in lines 111-155, which are truncated and do not compile; that part is not modelled.
- The page's Delete route is not part of this model; only the visibility of its button is.
- Polling timers, mount flags, scrolling, the emoji picker widget and loading spinners are left out.
- ChatPage.ChatContent.FriendsLoaded: reads the `selectedFriend` that the polling closure captured as the current selection. The closure's staleness is not modelled.
- ChatFriends.BuildUnreadMap: takes the aggregation's groups as its input; the `$match`/`$group` pipeline itself is left out. The route computes this map but never uses it in the response.
- BanUser.BannedUntil: only whole-number durations are modelled. The route accepts any JSON value for `durationMinutes`; a fractional one such as 1.5 gives an expiry of now + 90000 ms, and a numeric string is coerced by `>` and `*`. Neither case can be expressed with the model's `Option<int>`.
- BanUser.LogEntry: for the same reason, the log's "for D minutes" text and stored duration are stated only for whole-number durations; the JavaScript rendering of a fractional number is not modelled.
- Reaction `createdAt` stamps are left out.
- The unique index on follow pairs (`Follow.ts:19`) is not assumed. The friend set does not depend on it.
- The login route's JWT creation and cookie attributes are left out. A successful login is reported as the token payload it signs.
- RequestReset.Post: states the route as written. For a known account the reply differs from the generic one: it has another message and carries the reset link. The route's own comment says the reply should not reveal whether an account exists; the model keeps the difference visible in its postcondition.
