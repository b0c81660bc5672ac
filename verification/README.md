# Office management core, modelled in Dafny

This project models the core of an office-management application:

- **Chat backend.** This covers the REST handlers: chat list, message history, get-or-create direct chat, group creation and mark-read. It also covers the socket handlers: connection, `join_chat`, `leave_chat`, `send_message` and `disconnect`.
- **Admin routes.** These manage administrators (`addAdmin`, `getAdmins`, `removeAdmin`) and employees (`addEmp`, `updateEmp`, `/all`, `removeEmp`).
- **Dashboard logic.** This is the employee dashboard's clock-in/clock-out widget: the `HH:MM:SS` timer, the storage sync, and the activity-time labels.
- **Attendance logic.** This is the admin attendance page: the status counters, the stricter late count, day navigation and the query parameters.

Every operation is a pure function from a state (the database tables, the socket hub, or the widget and its local storage) to a new state and an HTTP result or a list of emitted events. Whatever the application cannot control becomes a parameter:

- the current time;
- random bytes;
- the password hash;
- the outcome of a store call.

## Module layout

| file | what it holds |
|---|---|
| `wrappers.dfy` | `Option` and the HTTP result with status codes |
| `decimal.dfy` | decimal rendering of naturals and reading it back, zero padding |
| `js.dfy` | JavaScript truthiness, `String.split`, `Number` and `parseInt` on digit strings |
| `seqs.dfy`, `sorting.dfy` | counting, filtering, a stable insertion sort by key |
| `chat_store.dfy` | the chat tables: chats, members, messages; unread counts |
| `chat_queries.dfy` | the REST chat handlers |
| `chat_socket.dfy` | rooms, the online set and the socket handlers |
| `users.dfy` | the users, payroll and past-employee tables and the SQL they share |
| `manage_admins.dfy`, `admin_emp.dfy` | the admin routes |
| `dashboard.dfy` | the dashboard widget |
| `attendance.dfy` | the attendance page logic |

Some properties describe behaviour that the code's own structure shows. Each is stated as a lemma:

- A user with two open sockets is reported offline when either of them disconnects (`ChatSocket.OfflineWhileAnotherSocketIsOpen`).
- `removeEmp` does not look at the role, so the last admin can remove their own row, which `removeAdmin` refuses (`AdminEmp.RemoveEmpMayRemoveLastAdmin`).
- The "next day" button can stay disabled on yesterday's date (`Attendance.NextDisabledOnYesterday`).

## Model

| member | source | states |
|---|---|---|
| ChatStore.MembersOf | backend/controllers/chatController.ts:349-350 | the member ids of a chat are exactly the users of its member rows |
| ChatStore.MembersOfAppend | backend/controllers/chatController.ts:220-230 | adding member rows adds their users after the existing members |
| ChatStore.Latest | backend/controllers/chatController.ts:17-30 | the last message is a message of the chat with the greatest creation time; none exactly when the chat has no message |
| ChatStore.AddChatKeepsValid | backend/controllers/chatController.ts:174-180 | a chat inserted under the next id, with member rows for it, keeps chat ids unique; no existing chat had that id and no existing member row refers to it |
| ChatQueries.OtherMember | backend/controllers/chatController.ts:52-67 | the other member of a direct chat is a member, is not the caller, and has a profile; none when no such member exists |
| ChatQueries.LatestOfChat | backend/controllers/chatController.ts:17-30 | the latest message of a chat belongs to the chat and was created no earlier than any of its messages; there is none exactly when the chat has no messages |
| ChatQueries.QueryRow | backend/controllers/chatController.ts:12-46 | a chat's row has its id, name, type and members and the caller's unread count; the last message and its time are both absent exactly when the chat has no messages, and otherwise come from a message of the chat with the greatest time |
| ChatQueries.Summarize | backend/controllers/chatController.ts:52-68 | the counterpart is the other member that `OtherMember` picks, and only a direct chat has one; with a counterpart the entry takes that user's name, avatar and email; every other chat keeps its own name and has no avatar or email; the query columns pass through unchanged |
| ChatQueries.ListOrder | backend/controllers/chatController.ts:44-45 | chats with messages come first, most recent first; the list is a permutation of its input |
| ChatQueries.GetChats | backend/controllers/chatController.ts:6-90 | lists exactly the chats the caller is a member of, one summary each, most recent message first |
| ChatQueries.ListedChat | backend/controllers/chatController.ts:12-46 | every listed summary is the summary of a chat the caller belongs to |
| ChatQueries.MemberChatListed | backend/controllers/chatController.ts:12-46 | every chat the caller belongs to is summarized |
| ChatQueries.ListedChatsSound | backend/controllers/chatController.ts:12-46 | the ordered list has exactly one entry per chat of the caller, and each entry is the summary of one of the caller's chats |
| ChatQueries.ListedChatsComplete | backend/controllers/chatController.ts:12-46 | the ordered list contains the summary of every chat the caller belongs to |
| ChatQueries.View | backend/controllers/chatController.ts:127-142 | a message view says it is the caller's own exactly when the caller sent it; a message without a sender shows the system sender; an attachment appears exactly when a URL is stored |
| ChatQueries.History | backend/controllers/chatController.ts:107-123 | a chat's history holds its messages, oldest first |
| ChatQueries.HistoryContents | backend/controllers/chatController.ts:107-123 | the history holds exactly the chat's messages, each once |
| ChatQueries.HistoryViewsOrdered | backend/controllers/chatController.ts:122-142 | the message views come oldest first |
| ChatQueries.HistoryViewsCount | backend/controllers/chatController.ts:122-142 | the history has one view per message of the chat |
| ChatQueries.HistoryViewsSound | backend/controllers/chatController.ts:119-142 | each view is the view of a message of the chat |
| ChatQueries.HistoryViewsComplete | backend/controllers/chatController.ts:119-142 | every message of the chat has its view in the reply |
| ChatQueries.GetMessages | backend/controllers/chatController.ts:92-144 | the result is 403 exactly when the caller is not a member; otherwise every message of the chat, oldest first, viewed for the caller |
| ChatQueries.FindDirect | backend/controllers/chatController.ts:158-171 | finds a direct chat both users belong to; none exactly when no such chat exists |
| ChatQueries.NewDirectChat | backend/controllers/chatController.ts:174-182 | a new direct chat has a fresh id, and its members are exactly the two users, as plain members |
| ChatQueries.DirectChatAdded | backend/controllers/chatController.ts:174-182 | the store with the new chat and its two member rows holds a direct chat between the two users; in a valid store it stays valid, and the two users are the chat's only members |
| ChatQueries.GetOrCreateDirectChat | backend/controllers/chatController.ts:152-182 | returns a direct chat between the two users; it creates one only when none exists |
| ChatQueries.OlderChatsStayIndirect | backend/controllers/chatController.ts:174-180 | creating a direct chat does not make any older chat a direct chat between the two users |
| ChatQueries.GetOrCreateDirectChatTwice | backend/controllers/chatController.ts:158-182 | a second request returns the same chat and creates nothing |
| ChatQueries.NewMemberRows | backend/controllers/chatController.ts:220-230 | the creator is the only admin member and comes first; every listed user other than the creator is a plain member, and every later row is for a listed user |
| ChatQueries.CreateChat | backend/controllers/chatController.ts:208-243 | 400 exactly when the name or type is missing; otherwise one new chat with a fresh id, its member rows, and the reply "New <type> created" with no unread messages |
| ChatQueries.CreateChatMembership | backend/controllers/chatController.ts:220-230 | after creation the members of the new chat are exactly the creator (as admin) and the listed users, and no older chat's membership changes |
| ChatQueries.NewMembersExactly | backend/controllers/chatController.ts:220-230 | a user has one of the inserted member rows exactly when the user is the creator or a listed user |
| ChatQueries.MarkRead | backend/controllers/chatController.ts:392-395 | marks read exactly the messages of the chat that another user sent; nothing else in any message changes |
| ChatQueries.MarkMessagesRead | backend/controllers/chatController.ts:384-396 | 400 exactly when no chat id is given; otherwise the update above |
| ChatQueries.MarkReadClearsUnread | backend/controllers/chatController.ts:392-395 | afterwards the caller has no unread message in that chat |
| ChatQueries.MarkReadOtherChats | backend/controllers/chatController.ts:392-395 | no other chat's unread count changes, for any user |
| ChatQueries.MarkReadSkipsSystemMessages | backend/controllers/chatController.ts:392-395 | messages without a sender are never marked |
| ChatQueries.MarkMessagesReadIdempotent | backend/controllers/chatController.ts:384-396 | repeating mark-read changes nothing |
| ChatSocket.PersonalRoomInjective | backend/controllers/chatController.ts:276-277 | different users have different personal rooms |
| ChatSocket.ChatRoomIsNotPersonal | backend/controllers/chatController.ts:280-283 | a chat room name never collides with a personal room |
| ChatSocket.Connect | backend/controllers/chatController.ts:259-278 | an authenticated socket marks its user online, broadcasts that, sends the online set to the newcomer and joins its personal room; otherwise nothing happens |
| ChatSocket.Disconnect | backend/controllers/chatController.ts:367-380 | the socket leaves every room; for an authenticated socket the user goes offline and everyone is told |
| ChatSocket.OfflineWhileAnotherSocketIsOpen | backend/controllers/chatController.ts:367-380 | a user still connected on another socket is nevertheless reported offline |
| ChatSocket.ConnectThenDisconnect | backend/controllers/chatController.ts:259-380 | connecting and disconnecting a fresh socket restores the socket table, and only its user goes offline |
| ChatSocket.JoinChat | backend/controllers/chatController.ts:280-284 | the socket joins exactly the named room and no other room changes |
| ChatSocket.LeaveChat | backend/controllers/chatController.ts:286-290 | the socket leaves exactly the named room and no other room changes |
| ChatSocket.JoinThenLeave | backend/controllers/chatController.ts:280-290 | joining and then leaving a room restores every room |
| ChatSocket.NewMessage | backend/controllers/chatController.ts:300-332 | the stored message is sent by the socket's own user, and it is read exactly when another user's socket is in the chat room |
| ChatSocket.FanOut | backend/controllers/chatController.ts:349-355 | one event per member, to that member's personal room, with the same payload |
| ChatSocket.SendMessage | backend/controllers/chatController.ts:292-365 | without a user or when the insert fails, nothing is stored or emitted; otherwise the message is appended; events go out only when both queries succeed, and then to every member |
| ChatSocket.SenderClaimIgnored | backend/controllers/chatController.ts:294-299 | the sender id the client claims makes no difference to the store or to the emits |
| ChatSocket.FanOutReachesMembers | backend/controllers/chatController.ts:336-355 | every event carries the new message, and a user's personal room is addressed exactly when the user is a member |
| ChatSocket.FanOutTargets | backend/controllers/chatController.ts:352-355 | the fan-out addresses a user's personal room exactly when that user is among the chat's members |
| ChatSocket.ConnectKeepsPersonalRooms | backend/controllers/chatController.ts:259-278 | connecting keeps every authenticated socket in its personal room |
| ChatSocket.DisconnectKeepsPersonalRooms | backend/controllers/chatController.ts:367-380 | disconnecting keeps every remaining authenticated socket in its personal room |
| ChatSocket.JoinChatKeepsPersonalRooms | backend/controllers/chatController.ts:280-284 | joining a chat keeps every authenticated socket in its personal room |
| ChatSocket.LeavePersonalRoom | backend/controllers/chatController.ts:286-290 | a socket may leave its own personal room, after which that room no longer holds it |
| ChatSocket.JoinForeignPersonalRoom | backend/controllers/chatController.ts:280-284 | any socket may join another user's personal room, and then receives every message sent into a chat that user belongs to |
| ChatSocket.SendReachesEveryMemberSocket | backend/controllers/chatController.ts:345-355 | while every socket sits in its personal room, a successful send reaches every live socket of every member |
| ChatSocket.SendUpdatesUnread | backend/controllers/chatController.ts:302-332 | a stored message is unread for every other member unless another user was in the room, and never unread for the sender |
| ChatSocket.SendToEmptyRoom | backend/controllers/chatController.ts:302-332 | with no other user in the room, every other member gains exactly one unread message |
| Users.NewestFirstWhere | backend/routes/admin/manageAdmins.ts:41-46 | the selected rows, each once, newest first |
| Users.ListingSound | backend/routes/admin/adminEmp.ts:273-281 | a listing holds only matching rows |
| Users.ListingComplete | backend/routes/admin/adminEmp.ts:273-281 | a listing holds every matching row |
| Users.ParamId | backend/routes/admin/adminEmp.ts:187-190 | a path parameter reads as an id exactly when it is a non-empty digit string |
| Users.ParamIdOfFromNat | backend/routes/admin/adminEmp.ts:187-190 | an id written into a path reads back as that id |
| Users.Find | backend/routes/admin/adminEmp.ts:187-195 | a lookup finds a row with that id; none exactly when no row has it |
| Users.FindAt | backend/routes/admin/adminEmp.ts:187-195 | with unique ids, a lookup finds the row that has the id |
| Users.InsertKeepsValid | backend/routes/admin/manageAdmins.ts:19-29 | inserting a row under the next id with an email no row has keeps ids and emails unique |
| Users.Without | backend/routes/admin/adminEmp.ts:366 | after a delete by id no row has that id, every row left was there before, and every row with another id stays |
| Users.WithoutAdmin | backend/routes/admin/manageAdmins.ts:97-100 | the delete by id and role keeps exactly the rows that are not admin rows with that id |
| Users.FindAdmin | backend/routes/admin/manageAdmins.ts:97-114 | the reported row is an admin row with that id; none exactly when no such row exists |
| Users.AdminDeleteIsDelete | backend/routes/admin/manageAdmins.ts:97-100 | when every row with the id is an admin, the role filter makes no difference to the delete or the reported row |
| Users.UniqueAdminDelete | backend/routes/admin/manageAdmins.ts:97-100 | with unique ids, removing an admin by id and role removes it by id and reports that admin's row |
| Users.WithoutAt | backend/routes/admin/adminEmp.ts:366 | with unique ids, a delete removes exactly the one row and keeps the order of the rest |
| Users.WithoutAbsent | backend/routes/admin/manageAdmins.ts:110-115 | deleting an id no row has changes nothing |
| Users.WithoutKeepsValid | backend/routes/admin/adminEmp.ts:366 | a delete keeps ids and emails unique |
| Users.AdminCountWithout | backend/routes/admin/manageAdmins.ts:97-115 | a delete lowers the admin count by one exactly when the row was an admin |
| Users.Replace | backend/routes/admin/adminEmp.ts:212-237 | an update replaces the row with the matching id and leaves every other row |
| ManageAdmins.AddAdmin | backend/routes/admin/manageAdmins.ts:12-36 | 400 when a field is missing; 409 when the email is taken; otherwise a new admin row with the hash, one more admin, and ids and emails stay unique |
| ManageAdmins.GetAdmins | backend/routes/admin/manageAdmins.ts:39-62 | 404 exactly when there is no admin; otherwise every admin row once, newest first |
| ManageAdmins.RemoveAdmin | backend/routes/admin/manageAdmins.ts:65-130 | the guards in source order: missing password, no caller, unknown caller, wrong password, missing id, last admin, an unreadable id (500), and no admin row with that id (404 "Admin not found"); success deletes the admin rows with that id and reports the first; every failure leaves the store |
| ManageAdmins.RemoveAdminKeepsAnAdmin | backend/routes/admin/manageAdmins.ts:97-115 | with unique ids a removal is a delete by id, never leaves zero admins, and takes away exactly one admin row |
| ManageAdmins.AddThenRemoveAdmin | backend/routes/admin/manageAdmins.ts:12-130 | adding an admin and then removing it restores the users table |
| ManageAdmins.RemoveLastRow | backend/routes/admin/manageAdmins.ts:97-121 | removing the admin in the last row drops just that row |
| ManageAdmins.FindAfterAppend | backend/routes/admin/manageAdmins.ts:80-84 | the caller's row is still found after another row is inserted |
| ManageAdmins.AdminMayRemoveSelf | backend/routes/admin/manageAdmins.ts:65-121 | an admin may remove their own row while another admin exists |
| AdminEmp.UpperHex | backend/routes/admin/adminEmp.ts:57-62 | two upper-case hex digits per byte |
| AdminEmp.FromUpperHexOfUpperHex | backend/routes/admin/adminEmp.ts:57-62 | hex text reads back as the same bytes |
| AdminEmp.GeneratedPassword | backend/routes/admin/adminEmp.ts:57-62 | the initial password is 8 upper-case hex digits that encode the random bytes |
| AdminEmp.AddEmp | backend/routes/admin/adminEmp.ts:22-81 | 400 when a field is missing or the email is taken; otherwise a new employee row storing the hash of the password generated from the random bytes; ids and emails stay unique |
| AdminEmp.Updated | backend/routes/admin/adminEmp.ts:212-237 | an update keeps the id, the password hash, the role and the creation time, and the nine form columns (name, email, salary, designation, phone, location, joining date, skills, employment type) take the form's values |
| AdminEmp.SetBasicSalary | backend/routes/admin/adminEmp.ts:240-247 | the payroll rows of that user get the new salary and nothing else changes |
| AdminEmp.UpdateEmp | backend/routes/admin/adminEmp.ts:157-262 | 400 without key fields; 404 for an unknown id; 400 when another row holds the email; 500 `Internal server error` when the id does not read as an integer; otherwise the row is rewritten and the payroll follows exactly when the salary changed; every failure leaves the store |
| AdminEmp.UpdateEmpKeepsInvariants | backend/routes/admin/adminEmp.ts:199-237 | an update keeps ids and emails unique |
| AdminEmp.ReplaceSame | backend/routes/admin/adminEmp.ts:212-237 | rewriting a row with itself changes nothing |
| AdminEmp.FindReplaced | backend/routes/admin/adminEmp.ts:212-237 | the rewritten row is found under its id |
| AdminEmp.UpdateEmpTwice | backend/routes/admin/adminEmp.ts:157-262 | repeating a successful update succeeds, reports no salary change and changes nothing |
| AdminEmp.AllEmployees | backend/routes/admin/adminEmp.ts:266-294 | every employee row once, newest first; an empty list is a success |
| AdminEmp.Archived | backend/routes/admin/adminEmp.ts:345-363 | the archive row copies the original id, name, email, designation, phone, location, joining date, skills and employment type, and records the remover; the reason defaults to "Not specified" |
| AdminEmp.RemoveEmp | backend/routes/admin/adminEmp.ts:297-383 | 401 without a caller; 404 for an unknown employee or caller; 401 on a wrong password; 500 `Transaction failed. No changes were made.` when the id does not read as an integer; otherwise the row is archived and deleted; every failure leaves the store |
| AdminEmp.RemoveEmpDeletesOne | backend/routes/admin/adminEmp.ts:345-369 | a removal deletes exactly the target row: the table afterwards is the old one with that one index cut out, order kept; the table stays valid |
| AdminEmp.RemoveEmpMayRemoveLastAdmin | backend/routes/admin/adminEmp.ts:315-369 | the only admin can remove their own row here, leaving no admin, although the admin route refuses this |
| Dashboard.SplitSeconds | ofiice-management-frontend/src/pages/users/Dashboard.tsx:31-34 | hours, minutes below 60 and seconds below 60 add up to the total |
| Dashboard.SplitSecondsUnique | ofiice-management-frontend/src/pages/users/Dashboard.tsx:31-34 | that split is the only one |
| Dashboard.FormatTime | ofiice-management-frontend/src/pages/users/Dashboard.tsx:31-38 | the text is at least 8 characters with colons before the minutes and the seconds; it is exactly 8 characters below 100 hours |
| Dashboard.FormatTimeRoundTrip | ofiice-management-frontend/src/pages/users/Dashboard.tsx:31-38 | the timer text reads back as the number of seconds |
| Dashboard.FormatTimeInjective | ofiice-management-frontend/src/pages/users/Dashboard.tsx:31-38 | different durations give different texts |
| Dashboard.Elapsed | ofiice-management-frontend/src/pages/users/Dashboard.tsx:138-145 | the elapsed seconds are the floor of the elapsed milliseconds divided by 1000 |
| Dashboard.ElapsedMonotone | ofiice-management-frontend/src/pages/users/Dashboard.tsx:138-145 | the timer never goes back while the clock moves forward |
| Dashboard.CheckStatus | ofiice-management-frontend/src/pages/users/Dashboard.tsx:104-116 | the widget is checked in exactly when the stored status is clocked in and a start time is stored; otherwise the timer is cleared |
| Dashboard.Tick | ofiice-management-frontend/src/pages/users/Dashboard.tsx:135-149 | the timer follows the clock only while checked in with a start time |
| Dashboard.Begin | ofiice-management-frontend/src/pages/users/Dashboard.tsx:152-154 | a click during a request is ignored; otherwise it sets the in-flight flag and sends |
| Dashboard.DoubleClickSendsOnce | ofiice-management-frontend/src/pages/users/Dashboard.tsx:152-154 | a second click during a request sends nothing |
| Dashboard.FinishClockIn | ofiice-management-frontend/src/pages/users/Dashboard.tsx:163-183 | success checks in from now and writes both keys; an error shows its message or "Clock In Failed"; a failed fetch shows nothing; the flag is cleared in every case |
| Dashboard.FinishClockOut | ofiice-management-frontend/src/pages/users/Dashboard.tsx:197-216 | success checks out, resets the timer and removes both keys; an error shows its message or "Clock Out Failed"; the flag is cleared in every case |
| Dashboard.ClockInSurvivesSync | ofiice-management-frontend/src/pages/users/Dashboard.tsx:104-183 | the next sync after a clock-in keeps the widget checked in from the same start |
| Dashboard.ClockOutSurvivesSync | ofiice-management-frontend/src/pages/users/Dashboard.tsx:104-216 | the next sync after a clock-out keeps the widget checked out |
| Dashboard.TimerAfterClockIn | ofiice-management-frontend/src/pages/users/Dashboard.tsx:138-183 | after a clock-in the timer shows the seconds since that clock-in |
| Dashboard.FormatActivityTime | ofiice-management-frontend/src/pages/users/Dashboard.tsx:255-266 | "Just now" under an hour; whole hours from 1 to 23; the date from 24 hours on |
| Dashboard.LabelText | ofiice-management-frontend/src/pages/users/Dashboard.tsx:263-265 | "Just now" within the hour; for whole hours the hour count in decimal followed by "h ago", which reads back as the count; no text for the date label |
| Dashboard.ActivityLabelAges | ofiice-management-frontend/src/pages/users/Dashboard.tsx:255-266 | as time passes a label only ages |
| Attendance.Count | ofiice-management-frontend/src/pages/admin/AdminAttendance.tsx:89-108 | the four counters sum to at most the number of records; the present and late counters are zero exactly when no record has that status |
| Attendance.CountersBounded | ofiice-management-frontend/src/pages/admin/AdminAttendance.tsx:89-108 | no record is counted under two statuses |
| Attendance.CountAppend | ofiice-management-frontend/src/pages/admin/AdminAttendance.tsx:89-108 | a new record raises exactly the counter of its status |
| Attendance.CalculatedLate | ofiice-management-frontend/src/pages/admin/AdminAttendance.tsx:113-126 | the stricter late count is at least the late counter and at most the number of records |
| Attendance.CountedLateByStatus | ofiice-management-frontend/src/pages/admin/AdminAttendance.tsx:114-125 | late records always count; other statuses never count, and neither does "Present" without a check-in |
| Attendance.ReadCheckIn | ofiice-management-frontend/src/pages/admin/AdminAttendance.tsx:117-118 | a check-in text splits into hour, minute and period |
| Attendance.MorningRule | ofiice-management-frontend/src/pages/admin/AdminAttendance.tsx:119-123 | a morning check-in counts exactly after 9:15 or at 10 or 11 o'clock |
| Attendance.AfternoonRule | ofiice-management-frontend/src/pages/admin/AdminAttendance.tsx:122 | every afternoon check-in counts |
| Attendance.MorningThreshold | ofiice-management-frontend/src/pages/admin/AdminAttendance.tsx:119-120 | "9:15 AM" does not count and "9:16 AM" does |
| Attendance.TwelveOClock | ofiice-management-frontend/src/pages/admin/AdminAttendance.tsx:121-122 | "12:30 AM" does not count and "12:05 PM" does |
| Attendance.PrevDay | ofiice-management-frontend/src/pages/admin/AdminAttendance.tsx:41 | the previous day at the same time of day |
| Attendance.NextDay | ofiice-management-frontend/src/pages/admin/AdminAttendance.tsx:42 | the next day at the same time of day |
| Attendance.PrevNextInverse | ofiice-management-frontend/src/pages/admin/AdminAttendance.tsx:41-42 | the two buttons undo each other |
| Attendance.NextDisabledWhen | ofiice-management-frontend/src/pages/admin/AdminAttendance.tsx:184 | the next button is disabled from today on and enabled two or more days back |
| Attendance.NextDisabledOnYesterday | ofiice-management-frontend/src/pages/admin/AdminAttendance.tsx:184 | the next button can also be disabled on yesterday's date |
| Attendance.NavigationStaysInPast | ofiice-management-frontend/src/pages/admin/AdminAttendance.tsx:41-42 | navigation never selects a moment in the future |
| Attendance.QueryParams | ofiice-management-frontend/src/pages/admin/AdminAttendance.tsx:50-58 | the mode comes first, then the date for the daily view, or the month and year otherwise |
| Attendance.Lookup | ofiice-management-frontend/src/pages/admin/AdminAttendance.tsx:50-58 | a lookup gives the value of the first pair with the key; none exactly when the key is absent |
| Attendance.QueryCarries | ofiice-management-frontend/src/pages/admin/AdminAttendance.tsx:50-58 | the daily query carries the date and no month or year; the history query carries the month and year and no date |

## Left out

- Database errors are not modelled, apart from the two store outcomes of `send_message` and one case per route below. A failed query would turn a reply into a 500. The routes that write several rows (`getOrCreateDirectChat`, `createChat`, `updateEmp`, `removeEmp`, `removeAdmin`) do so inside a transaction, and a failure after a write is rolled back, so the store stays unchanged.
- The 500s that are modelled come from an id path parameter that the store cannot read as an integer. They appear in `ManageAdmins.RemoveAdmin`, `AdminEmp.UpdateEmp` and `AdminEmp.RemoveEmp`, and each leaves the store unchanged.
- The `time` and `date` strings that the chat list, the message history and the dashboard render depend on the locale and the time zone. The model keeps the timestamps, and `Dashboard.LabelText` gives no text for the date label.
- The `isSystem` and `sender_type` columns of messages are not modelled. A message without a sender stands for a system message.
- `getAdmins` and `/all` select a subset of columns. The model returns whole rows.
- Password hashing and comparison belong to an external library. The hash is a parameter, and the compare is the `matches` parameter.
- The welcome e-mail and the PDF attachment of `addEmp` are not modelled. Neither changes the store or the reply.
- `Users.ParamId` reads only plain digit strings. PostgreSQL would also accept a sign, spaces or a leading `+` in an id parameter.
- `Users.ParamId` also accepts digit strings of any length. If `users.id` is a PostgreSQL `integer` or `serial` column (the schema is not in the repository's code), a value above 2147483647 such as `"99999999999"` is out of range: the query fails and `RemoveAdmin`, `UpdateEmp` and `RemoveEmp` answer with their 500 rather than the 404 the model gives.
- `ChatQueries.GetOrCreateDirectChat` takes the target user `t` as given. The route reads `targetUserId` from the body without a check (backend/controllers/chatController.ts:154). A missing value becomes NULL in the lookup at line 167 and in the INSERT at line 180, which either stores a member row with a NULL user or fails with a 500, depending on the column constraint. Neither outcome is modelled.
- `Js.NumberOf` reads only digit strings. Its handling of signs, white space, hex and exponents is not modelled.
- `Js.ParseInt` reads an optional leading sign and then the leading digits. Leading white space and the `0x` prefix are not modelled.
- Salaries are integers. Fractional salaries are not modelled.
- `Dashboard.FormatTime` is defined on non-negative seconds only. A start time in the future would show a negative field in the source.
- The attendance day model has no time zones or daylight-saving shifts: a day is always 86 400 000 ms.
- The `yyyy-MM-dd` rendering of the selected date is a parameter of `Attendance.QueryParams`.
- Socket.io internals are not modelled: acknowledgements, namespaces, and the order in which `online_users` lists the set.
- Concurrency is not modelled. This includes the race between the email check and the insert, and the interleaving of socket events with requests.
- `formatActivityTime` parses a date string. The model takes the creation time in milliseconds.
- The attendance fetch, its loading flag and its error paths are not modelled. They only replace the record list.
- `AdminEmp.RemoveEmp` receives the password as a string. A missing password reaches the compare as whatever the request holds.
- The past-employee listing routes and the employee-settings routes in `adminEmp.ts` are outside this core.
- `AdminEmp.NewEmployee` and `AdminEmp.AddEmp` store the employee role. The INSERT names no role column, so the role comes from the column default of `users.role`, which is not shown in the repository's code.
- `ChatQueries.NewDirectChat` and `ChatQueries.NewMemberRows` store plain (non-admin) member rows wherever the INSERT names no `is_admin` column. The model takes `false` as the default of `chat_members.is_admin`, which is not shown in the repository's code.
- `ChatStore.Valid` assumes that every `chat_members` row refers to a chat id already drawn from the chat sequence. This is the foreign key of `chat_members.chat_id`, and the schema is not shown in the repository's code.
- `AdminEmp.AddEmp` takes the four bytes of `randomBytes(4)` as a parameter. The random source itself is not modelled.
