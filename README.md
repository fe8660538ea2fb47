# PawResQ core in Dafny

PawResQ is an animal-rescue service. Informers report animals in need as
rescue requests. Request checkers approve or reject them, team leaders assign
them to volunteers, and volunteers mark them rescued and completed. Each user
carries eight statistics counters that these steps move.

This project models the server's rescue-request lifecycle, the user accounts,
the notification inbox, the pet and rescued-pet records, the statistics
maintenance script, and two client pages: the volunteer dashboard and the
registration form.

Layout, one module per file:

- `common.dfy` (`Common`): options, ids, roles, replies, JavaScript `trim`,
  ASCII lower-casing, fresh ids, and sorting by a weight.
- `rescue_request_model.dfy`, `user_model.dfy`, `notification_model.dfy`,
  `pet_model.dfy`, `rescued_pet_model.dfy`: the Mongoose schemas.
  - Each covers the schema's validators and setters and what a save or an
    update stores.
  - Values are functions; the properties are lemmas.
- `store.dfy` (`Store.Database`): the collections, as a class whose map fields
  the handlers reassign.
- `lifecycle.dfy` (`Lifecycle`): the decisions inside the request handlers.
  These are the transition table, the counter changes of each status change,
  and who may update or delete.
- The five `*_controller.dfy` files and `user_statistics.dfy`: the Express
  handlers, as methods on the database. Each states its reply and the new
  state of every collection it may change.
- `init_statistics.dfy`: the `initStatistics` script's loop.
- `volunteer_dashboard.dfy`, `register_form.dfy`: the logic of the two client
  pages.
  - The dashboard's list of assigned requests is a class field.
  - The server's answer to the page is a parameter.

Points where the code behaves differently from what a reader might expect:

- `updateRescueRequest` moves the counters as soon as the transition check
  passes. The authorisation check (403) and the body's validation (400) come
  after, so a refused update still moves counters. See
  `RescueRequestController.ForbiddenApprovalStillCredits`.
- Completing a rescue takes one off `rescuesInProgress` with no lower bound.
  See `RescueRequestController.CompletionCanGoNegative`.
- An update body is applied field by field.
  - A body may replace the informer, the assignee or the whole `updates`
    history (`RescueRequestModel.UpdatesListReplacesHistory`).
  - A pet update may change its owner (`PetController.UpdateCanTransferOwnership`).
- `markNotificationsAsRead` with a list of ids marks those notifications
  whoever they are addressed to.
- A pet stored without an owner makes `updatePet` and `deletePet` fail with 500
  for everyone, administrators included. `owner.toString()` throws before the
  role check.
- The registration page checks an untrimmed name, while the server trims it.
  The page's email pattern is not anchored, so `my name a@b.c` passes it.
- A user's `statistics` may be absent from the stored document or `null`.
  - Mongoose fills an absent one with the zero default when it loads the user
    (`UserModel.Loaded`). The handlers see zeros, and the next save stores them.
  - A `null` one is a value. Mongoose runs the schema validators before the
    `pre('save')` hook, and `statistics` is required, so a save of such a user
    fails. Logging in, a profile edit and a role change answer 500 for that
    user. The hook's repair never takes effect
    (`UserModel.HookRepairNeverApplies`).
  - A profile read and the statistics read replace `null` statistics with
    zeros before they save, so they succeed.
  - MongoDB refuses a `$inc` inside `null`. Creating a request then answers
    500 with the request already stored. A status change answers 500 before
    its 403 and 400 checks, with no counter moved
    (`RescueRequestController.CreateCreditRefused`,
    `RescueRequestController.StatusCreditRefused`).
- `getUserStatistics` answers 500 to every volunteer and informer; see
  "## Findings".

## Model

| member | source | states |
|---|---|---|
| Common.ParseRole | server/models/User.js:28-32 | a string is read as a role exactly when it is one of the six role names, and then as the role with that name |
| Common.TrimStart | server/models/User.js:5-22 | the result is a suffix of the input, does not begin with white space, and only white space was removed |
| Common.TrimEnd | server/models/User.js:5-22 | the result is a prefix of the input, does not end with white space, and only white space was removed |
| Common.TrimSpec | server/models/User.js:5-22 | a trimmed string neither starts nor ends with white space, and it is empty exactly when the input was blank |
| Common.TrimIdempotent | server/models/User.js:5-22 | trimming twice is trimming once |
| Common.Lower | server/models/User.js:16-22 | lower-casing keeps the length and maps each character through ASCII lower-casing |
| Common.LowerIdempotent | server/models/User.js:16-22 | lower-casing twice is lower-casing once |
| Common.FreshId | server/controllers/rescueRequestController.js:76-87 | the id of a created document is used by no stored document |
| Common.InsertDesc | server/controllers/notificationController.js:21-22 | inserting into a list ordered by decreasing weight keeps it ordered, adds exactly the one key, and keeps it free of repeats |
| Common.SortByWeightDesc | server/controllers/rescueRequestController.js:26-29 | the result lists exactly the weighted keys, each once, heaviest first |
| RescueRequestModel.ParseStatus | server/models/RescueRequest.js:30-34 | a string is read as a status exactly when it is one of the eight enum names |
| RescueRequestModel.StatusNamesDistinct | server/models/RescueRequest.js:30-34 | two statuses have the same name only when they are the same status |
| RescueRequestModel.CastEntries | server/models/RescueRequest.js:39-48 | each sent entry is stored with its message and its own timestamp, or the current time when it has none |
| RescueRequestModel.ApplyPatchKeepsValid | server/controllers/rescueRequestController.js:243-248 | a body the validators accept keeps a stored request's descriptions, locations and entries valid |
| RescueRequestModel.ApplyPatchIdempotent | server/controllers/rescueRequestController.js:243-248 | sending the same update body twice stores what sending it once stores |
| RescueRequestModel.EmptyPatchIsIdentity | server/controllers/rescueRequestController.js:243-248 | an empty body changes nothing |
| RescueRequestModel.UpdatesListReplacesHistory | server/controllers/rescueRequestController.js:243-248 | a supplied `updates` list replaces the whole stored history |
| UserModel.AllCountersComplete | server/models/User.js:50-63 | the eight counters are all the counters there are |
| UserModel.ZeroStats | server/models/User.js:50-63 | the default statistics hold every counter at zero |
| UserModel.RepairStats | server/models/User.js:76-87 | absent or `null` statistics become all zeros and present ones are kept as they are |
| UserModel.Loaded | server/models/User.js:50-63 | a loaded user whose stored document lacks `statistics` gets the zero default, and any other user is loaded as stored; a loaded user always has statistics or `null` |
| UserModel.Inc | server/controllers/rescueRequestController.js:159-218 | on statistics that are not `null`, a `$inc` moves exactly one counter by the amount, counting a missing counter or object as 0, and leaves the others alone |
| UserModel.ApplySetters | server/models/User.js:5-37 | an assigned user has name, username and area trimmed and email trimmed and lower-cased, and nothing else changes |
| UserModel.SettersTrim | server/models/User.js:5-37 | after the setters, name, username and area carry no surrounding white space |
| UserModel.PreSave | server/models/User.js:69-90 | the hook hashes the password only when a new one was set, repairs missing statistics, and changes nothing else |
| UserModel.SaveOutcome | server/models/User.js:4-90 | save succeeds exactly when the validators, including the required `statistics`, and the unique indexes accept the document as given; what it stores is valid, unique, and differs only in the password hash |
| UserModel.HookRepairNeverApplies | server/models/User.js:50-52 | a stored document keeps the statistics it was saved with, and a user whose statistics are `null` is never stored, even as loaded |
| UserModel.SaveWithStatistics | server/models/User.js:76-87 | saving a user whose only change is complete statistics stores that user unchanged |
| UserModel.SaveKeepsUnique | server/models/User.js:10-22 | a save the unique indexes accept keeps usernames and emails unique |
| UserModel.ApplyDelta | server/controllers/rescueRequestController.js:159-218 | one counter change keeps the set of stored users and which of them have `null` statistics |
| UserModel.ApplyDeltas | server/controllers/rescueRequestController.js:159-218 | a run of counter changes keeps the set of stored users and which of them have `null` statistics |
| UserModel.FirstRefused | server/controllers/rescueRequestController.js:159-218 | the position of the first change addressed to a user with `null` statistics, with every change before it accepted; it is the length of the run exactly when no change is refused |
| UserModel.OneUserRefusedFirst | server/controllers/rescueRequestController.js:159-218 | when all changes go to one user, as in one `$inc`, either none is refused or the first one is |
| UserModel.ApplyDeltasSnoc | server/controllers/rescueRequestController.js:159-218 | issuing one more change after a run gives the run extended by that change |
| UserModel.ApplyDeltasFrame | server/controllers/rescueRequestController.js:159-218 | counter changes touch only the statistics of the users they address, and no user they do not address |
| UserModel.ApplyDeltasCounter | server/controllers/rescueRequestController.js:159-218 | each counter of a stored user moves by exactly the sum of the amounts addressed to it, and a user with `null` statistics does not change |
| UserModel.RebuildStats | server/scripts/initStatistics.js:20-29 | the rebuilt statistics hold all eight counters, each with its old value, or 0 when the value, or the whole object, is missing or `null` |
| UserModel.RebuildIdempotent | server/scripts/initStatistics.js:20-29 | rebuilding rebuilt statistics changes nothing, and complete statistics are kept exactly |
| Store.Database.constructor | server/index.js:51-52 | a new database has every collection empty |
| Store.Database.SaveUser | server/models/User.js:69-90 | the users collection gains the saved document, or stays as it was when save refuses it |
| Store.Database.IncrementCounters | server/controllers/rescueRequestController.js:159-218 | the `$inc` updates are issued in order up to the first one addressed to a user with `null` statistics; the users end as those earlier changes leave them, and the result says whether none was refused |
| Lifecycle.Names | server/controllers/rescueRequestController.js:140-149 | the table's name list matches its status list entry by entry |
| Lifecycle.NamedTransition | server/controllers/rescueRequestController.js:140-156 | the name of a status passes the string check exactly when that edge is in the table |
| Lifecycle.ValidTransitionMeansAllowed | server/controllers/rescueRequestController.js:140-156 | the string check accepts a requested status exactly when it names an allowed target; strings outside the enum are refused |
| Lifecycle.AllowedEdges | server/controllers/rescueRequestController.js:140-149 | the transition table has exactly its eleven edges |
| Lifecycle.TerminalStatuses | server/controllers/rescueRequestController.js:140-149 | rejected, completed and cancelled have no way out, and every other status has one |
| Lifecycle.AllowedMovesForward | server/controllers/rescueRequestController.js:140-149 | every allowed move goes strictly forward in the lifecycle |
| Lifecycle.RunRankGrows | server/controllers/rescueRequestController.js:140-149 | along a run of allowed moves the rank grows at least by the number of steps |
| Lifecycle.RunIsShort | server/controllers/rescueRequestController.js:140-149 | a request makes at most five status changes |
| Lifecycle.NothingReturnsToPending | server/controllers/rescueRequestController.js:140-149 | no run of allowed moves ever returns to pending |
| Lifecycle.CounterEffectsSum | server/controllers/rescueRequestController.js:159-218 | a status change moves only the credited user's counters, each by its gain, and addresses every change to that user |
| Lifecycle.DeltaSumSplit | server/controllers/rescueRequestController.js:159-218 | the sum of changes splits into the first change plus the rest |
| Lifecycle.CompletionAlwaysDecrements | server/controllers/rescueRequestController.js:186-208 | every allowed move into completed takes one off `rescuesInProgress` |
| Lifecycle.DeleteRightsWithinUpdateRights | server/controllers/rescueRequestController.js:222-238 | whoever may delete a request may update it, and team leaders may update but not delete |
| Lifecycle.RolesWithoutRights | server/controllers/rescueRequestController.js:222-238 | receptionists may neither update nor delete, and volunteers may never delete |
| Lifecycle.InformerRights | server/controllers/rescueRequestController.js:222-238 | an informer may update and delete their own request exactly while it is pending |
| RescueRequestController.CreatedOfSelected | server/controllers/rescueRequestController.js:7-29 | the sort weights cover exactly the selected requests, each weighted by its creation time |
| RescueRequestController.GetRescueRequests | server/controllers/rescueRequestController.js:5-36 | the list holds exactly the requests the filter selects, each once, newest first |
| RescueRequestController.NoParametersSelectAll | server/controllers/rescueRequestController.js:7-22 | with no parameters, or an empty status, every request is listed |
| RescueRequestController.OneStatusSelects | server/controllers/rescueRequestController.js:10-16 | one status string selects exactly the requests in that status, and nothing when it names none |
| RescueRequestController.NewRequestShape | server/controllers/rescueRequestController.js:76-84 | a created request is valid, pending, unassigned, owned by the caller, and holds one entry |
| RescueRequestController.CreateCredits | server/controllers/rescueRequestController.js:89-94 | creating a request adds one to the informer's `requestsSubmitted` and `helpCount` and moves nothing else |
| RescueRequestController.CreateCreditRefused | server/controllers/rescueRequestController.js:87-95 | the credit of a created request is refused exactly when the informer's statistics are `null`, and then no counter moves |
| RescueRequestController.CreateRescueRequest | server/controllers/rescueRequestController.js:57-113 | 400 on a missing field, 401 without a user, 400 on blank text; otherwise the request is stored under a fresh id, and then the informer is credited and the reply is Created, or, when the informer's statistics are `null`, the reply is 500 with the request still stored and no counter moved |
| RescueRequestController.UpdateRescueRequest | server/controllers/rescueRequestController.js:116-261 | 404; 400 on a transition outside the table; a 500 with nothing changed when the credited user's statistics are `null`; otherwise the counters move first, then 403, 400 or the stored request replaced as the body says |
| RescueRequestController.StatusCreditRefused | server/controllers/rescueRequestController.js:159-218 | the credit of an accepted status change is refused exactly when the user it credits has `null` statistics, and then no counter moves |
| RescueRequestController.StatusEffectsOnCounter | server/controllers/rescueRequestController.js:159-218 | an accepted status change moves one counter of one user by its gain when that user is credited, and not at all otherwise |
| RescueRequestController.ForbiddenApprovalStillCredits | server/controllers/rescueRequestController.js:159-238 | a receptionist's refused approval still adds one to the informer's `requestsApproved` |
| RescueRequestController.CompletionCanGoNegative | server/controllers/rescueRequestController.js:186-208 | completing a rescue from a zero `rescuesInProgress` leaves it at -1 |
| RescueRequestController.AssignmentCreditsBodyAssignee | server/controllers/rescueRequestController.js:209-214 | an assignment credits exactly the volunteer named in the body |
| RescueRequestController.NoStatusChangeNoEffects | server/controllers/rescueRequestController.js:136 | with no status, or the stored one, nothing moves |
| RescueRequestController.DeleteRescueRequest | server/controllers/rescueRequestController.js:264-293 | 404, then 403 unless the caller may delete; otherwise that request is removed and nothing else changes |
| UserController.RegistrationRole | server/controllers/userController.js:33-36 | registration accepts exactly the role names other than admin |
| UserController.RegistrationOutcome | server/controllers/userController.js:56-64 | with no clash, the new user is saved exactly when its fields pass the validators, with zero counters, the chosen role, the hashed password, and an area only for a volunteer |
| UserController.FindDuplicate | server/controllers/userController.js:18-30 | a message exactly when some user clashes; the username message only when a clashing user has that exact username |
| UserController.RegisterUser | server/controllers/userController.js:13-85 | duplicate, then role, then area refusals with nothing stored; otherwise created exactly when save accepts, under a fresh id |
| UserController.LoginUser | server/controllers/userController.js:88-120 | the same 401 for an unknown user and a wrong password; for a stored username with the right password, success with the loaded user and the login time saved exactly when that save succeeds, and 500 otherwise |
| UserController.GetUserProfile | server/controllers/userController.js:123-150 | 404 for an unknown caller; the user as loaded, with absent statistics as zeros and nothing saved; `null` statistics saved as zeros and the user so repaired returned; a refused save is a 500 with nothing changed |
| UserController.MergeProfile | server/controllers/userController.js:161-174 | each supplied field replaces the stored one through its setter, the area only for a volunteer, and nothing else changes |
| UserController.MergeProfileIdempotent | server/controllers/userController.js:161-174 | the same edit twice equals it once, and an empty edit changes nothing |
| UserController.UpdateUserProfile | server/controllers/userController.js:153-188 | 404; otherwise the edit merged into the loaded user is stored exactly when save accepts it, else 500 with nothing changed |
| UserController.ProfileEditKeepsRoleAndStatistics | server/controllers/userController.js:161-174 | a profile edit keeps the role and the loaded statistics, and changes the password only when one is sent; a user with `null` statistics cannot be edited |
| UserController.GetUsers | server/controllers/userController.js:191-218 | admins and team leaders get exactly the users the filter selects; others get 403 |
| UserController.OtherActiveValuesIgnored | server/controllers/userController.js:206-211 | an `isActive` other than "true" or "false" filters nothing |
| UserController.WithRole | server/controllers/userController.js:262-271 | the new role is set, and a supplied area is set, trimmed, only for a volunteer |
| UserController.UpdateUserRole | server/controllers/userController.js:241-285 | 403 exactly for a non-admin; 404, an invalid role, and a volunteer without any area are refused with nothing saved; once every check passes, success exactly when the save of the loaded user with the new role succeeds, and 500 otherwise |
| UserStatistics.Fallback | server/controllers/userController.js:343-383 | a stored counter is shown unless it is 0, when the live count is shown |
| UserStatistics.View | server/controllers/userController.js:326-395 | volunteers see live counts of their rescued and completed assigned requests, informers of their pending, approved and rejected requests, each counter the stored value or the live-count fallback |
| UserStatistics.InformedSplit | server/controllers/userController.js:361-380 | counting over disjoint sets of statuses adds up |
| UserStatistics.InformerCountsAddUp | server/controllers/userController.js:361-380 | pending, approved, rejected and cancelled counts add up to the total |
| UserStatistics.Repaired | server/controllers/userController.js:301-321 | loading and the read path's repair turn absent or `null` statistics into zeros and change nothing else |
| UserStatistics.StatsReply | server/controllers/userController.js:325-399 | volunteers and informers get a 500 from the failing `toObject` call; every other role gets its stored statistics |
| UserStatistics.StatsReplyDiffersFromView | server/controllers/userController.js:347-358 | the handler returns the intended view exactly for the roles other than volunteer and informer |
| UserStatistics.GetUserStatistics | server/controllers/userController.js:288-404 | 403 for other users' statistics unless admin or team leader, 404, otherwise `null` statistics saved as zeros (absent ones are filled in on load and not saved) and the handler's reply for the repaired user, which is a 500 for volunteers and informers |
| UserStatistics.InitialisedOnExactly | server/controllers/userController.js:426-439 | after the loop has initialised a set of users, exactly those users are initialised and every other user is unchanged |
| UserStatistics.InitialisedOnStep | server/controllers/userController.js:426-439 | initialising one more user gives the state with that user added to the initialised set |
| UserStatistics.NoClashWhileInitialising | server/controllers/userController.js:437 | initialising changes no username or email, so the unique indexes judge each save as they would before the loop |
| UserStatistics.SaveInitialised | server/controllers/userController.js:427-437 | a save succeeds exactly when the validators accept the user with zero statistics; the user is then stored that way, and otherwise nothing changes |
| UserStatistics.InitializeUserStatistics | server/controllers/userController.js:407-450 | 403 exactly for non-admins; the users saved are the first ones in query order, each accepted by the validators, and only they change; a 500 names the first user the validators refused; on success every selected user holds zero statistics and the count is the number of selected users |
| InitStatistics.Rebuilt | server/scripts/initStatistics.js:20-29 | the rebuilt user's statistics are complete, agree counter by counter with before, and nothing else changes |
| InitStatistics.RebuiltIgnoresLoading | server/scripts/initStatistics.js:13-29 | rebuilding the user as loaded, with the default filled in, gives what rebuilding the stored user gives |
| InitStatistics.RebuiltIdempotent | server/scripts/initStatistics.js:20-29 | rebuilding twice is rebuilding once, and complete statistics are untouched |
| InitStatistics.RunOverAll | server/scripts/initStatistics.js:17-35 | a run that saved every user leaves every user with complete, agreeing statistics |
| InitStatistics.RebuiltOnExactly | server/scripts/initStatistics.js:17-35 | after the run has rebuilt a set of users, exactly those users are rebuilt and every other user is unchanged |
| InitStatistics.RebuiltOnStep | server/scripts/initStatistics.js:18-33 | rebuilding one more user gives the state with that user added to the rebuilt set |
| InitStatistics.NoClashDuringRun | server/scripts/initStatistics.js:32 | rebuilding changes no username or email, so the unique indexes judge each save as before the run |
| InitStatistics.SaveRebuilt | server/scripts/initStatistics.js:20-32 | one save of the loaded user succeeds exactly when the validators accept the rebuilt user, which is then stored |
| InitStatistics.InitializeStatistics | server/scripts/initStatistics.js:13-35 | the users saved are the first ones in query order, each accepted by the validators, and only they change; the count is how many were saved; a run ends early exactly at the first user the validators refuse; a full run rebuilds every user |
| InitStatistics.ValidUsersNeverFail | server/scripts/initStatistics.js:32 | on valid, unique users every save of the run succeeds |
| NotificationModel.NewNotification | server/models/Notification.js:4-33 | a notification is created exactly when type and content are valid and a target role, if given, is a role; it starts unread at the current time |
| NotificationController.Inbox | server/controllers/notificationController.js:11-22 | the inbox holds exactly the notifications addressed to the caller or the caller's role, only unread ones when asked |
| NotificationController.UnreadWithinInbox | server/controllers/notificationController.js:35-43 | the unread notifications are among all of the caller's |
| NotificationController.CreatedAtOf | server/controllers/notificationController.js:21-22 | the sort weights cover exactly the chosen notifications, each weighted by its creation time |
| NotificationController.GetNotifications | server/controllers/notificationController.js:5-30 | exactly the caller's notifications, or unread ones when `unreadOnly` is "true", each once, newest first |
| NotificationController.GetUnreadCount | server/controllers/notificationController.js:33-49 | the count is the number of the caller's unread notifications |
| NotificationController.MarkRead | server/controllers/notificationController.js:58-75 | the chosen notifications become read and the others are untouched |
| NotificationController.MarkReadIdempotent | server/controllers/notificationController.js:58-75 | marking twice is marking once |
| NotificationController.MarkAllClearsUnread | server/controllers/notificationController.js:62-75 | after "mark all", nothing of the caller's is unread and the caller's inbox is the same set |
| NotificationController.MarkNotificationsAsRead | server/controllers/notificationController.js:52-82 | a non-empty id list marks those notifications, otherwise all of the caller's unread ones |
| NotificationController.CreateNotification | server/controllers/notificationController.js:85-114 | 400 on missing fields, 500 when the schema refuses, otherwise the notification stored under a fresh id |
| NotificationController.CreatedReachesTarget | server/controllers/notificationController.js:97-107 | a created notification appears unread in the inbox of its target user and of every holder of its target role |
| PetModel.TrimOptIdempotent | server/models/Pet.js:4-47 | trimming an optional field twice is trimming once |
| PetModel.NewPet | server/models/Pet.js:4-65 | a pet is created exactly when the required fields are present and valid; it is valid, owned by the caller, and takes the schema defaults |
| PetModel.UpdatePet | server/controllers/petController.js:88-92 | an update succeeds exactly when the supplied fields pass their validators |
| PetModel.UpdatePetKeepsValid | server/models/Pet.js:4-65 | a valid update keeps a valid pet valid |
| PetModel.UpdateWithNothingIsIdentity | server/controllers/petController.js:88-92 | an empty update changes nothing |
| PetController.NeedleCaseIgnored | server/controllers/petController.js:9-11 | the location search does not depend on the case of the searched text |
| PetController.ContainsSelf | server/controllers/petController.js:9-11 | every location contains itself, and a match is no longer than the location |
| PetController.GetPets | server/controllers/petController.js:4-18 | exactly the pets the filter selects; an empty query lists all pets |
| PetController.LocationFilterIgnoresCase | server/controllers/petController.js:9-11 | lower-casing the location query selects the same pets |
| PetController.CreatePet | server/controllers/petController.js:36-72 | a pet owned by the caller is stored exactly when the schema accepts it, else 500 with nothing stored |
| PetController.UpdatePet | server/controllers/petController.js:75-98 | 404; 500 for a pet without an owner; 403 unless owner or admin; otherwise the update stored exactly when valid, and 500 when not |
| PetController.UpdateCanTransferOwnership | server/controllers/petController.js:88-92 | an update body may hand the pet to another owner, so its sender loses the right to edit it |
| PetController.DeletePet | server/controllers/petController.js:101-119 | 404; 500 for a pet without an owner; 403 unless owner or admin; otherwise the pet is removed |
| RescuedPetModel.TrimOptIdempotent | server/models/RescuedPet.js:4-44 | trimming an optional field twice is trimming once |
| RescuedPetModel.NewRescuedPet | server/models/RescuedPet.js:4-66 | a record is created exactly when the required fields are present and valid; it is valid, credited to the rescuer, and takes the schema defaults |
| RescuedPetModel.UpdateRescuedPet | server/controllers/rescuedPetController.js:153-157 | an update succeeds exactly when the supplied fields pass their validators |
| RescuedPetModel.UpdateRescuedPetKeepsValid | server/models/RescuedPet.js:4-66 | a valid update keeps a valid record valid |
| RescuedPetController.GetRescuedPets | server/controllers/rescuedPetController.js:4-22 | exactly the records the filter selects; an empty query lists all records |
| RescuedPetController.UnknownConditionSelectsNothing | server/controllers/rescuedPetController.js:9-12 | a condition outside the enum selects no record |
| RescuedPetController.CreateRescuedPet | server/controllers/rescuedPetController.js:91-131 | a record credited to the caller is stored exactly when the schema accepts it, else 500 |
| RescuedPetController.DeleteRightsWithinUpdateRights | server/controllers/rescuedPetController.js:142-177 | whoever may delete a record may update it; the rescuer may update; volunteers and informers may not delete |
| RescuedPetController.UpdateRescuedPet | server/controllers/rescuedPetController.js:134-163 | 404; 403 unless admin, team leader, request checker or the rescuer; the update stored exactly when valid |
| RescuedPetController.DeleteRescuedPet | server/controllers/rescuedPetController.js:166-184 | 404; 403 unless admin or team leader; otherwise the record is removed |
| VolunteerDashboard.NextStatus | client/src/pages/VolunteerDashboard.jsx:142-157 | assigned and in-progress propose rescued; every other status proposes completed |
| VolunteerDashboard.ShownButtonProposesAllowedEdge | client/src/pages/VolunteerDashboard.jsx:285-301 | wherever the button shows, it proposes a transition the server accepts, and its label names it |
| VolunteerDashboard.HiddenButtonProposesNothingValid | client/src/pages/VolunteerDashboard.jsx:285-301 | wherever the button is hidden, the label is generic and the proposed change would be refused |
| VolunteerDashboard.WithNote | client/src/pages/VolunteerDashboard.jsx:172-179 | the sent request is the request with the note appended to its history |
| VolunteerDashboard.StatusPayload | client/src/pages/VolunteerDashboard.jsx:201-210 | the sent status is the proposed one, and the history gains one entry announcing it |
| VolunteerDashboard.ReplaceCard | client/src/pages/VolunteerDashboard.jsx:186-188 | the request with the same id is replaced and the others are kept, in order |
| VolunteerDashboard.MergeStatus | client/src/pages/VolunteerDashboard.jsx:221-227 | the request with the id takes the sent status and history; the others are kept |
| VolunteerDashboard.RemoveCard | client/src/pages/VolunteerDashboard.jsx:221-227 | exactly the requests with another id remain |
| VolunteerDashboard.ListUpdatesKeepIds | client/src/pages/VolunteerDashboard.jsx:186-227 | replacing and merging keep the list's ids in order |
| VolunteerDashboard.RemoveCardFacts | client/src/pages/VolunteerDashboard.jsx:221-227 | removing twice is removing once, and removing an absent id keeps the list |
| VolunteerDashboard.StatusChangeAccepted | client/src/pages/VolunteerDashboard.jsx:197-227 | an assigned volunteer's status change passes the server's transition and authorisation checks, and the server stores the history the page sent |
| VolunteerDashboard.AsInputs | client/src/pages/VolunteerDashboard.jsx:201-210 | the sent entries carry the stored messages and timestamps |
| VolunteerDashboard.AsInputsRoundTrip | client/src/pages/VolunteerDashboard.jsx:201-210 | entries sent back with their timestamps are stored as they were |
| VolunteerDashboard.Dashboard.constructor | client/src/pages/VolunteerDashboard.jsx:41 | the page starts from the given list |
| VolunteerDashboard.Dashboard.AddUpdate | client/src/pages/VolunteerDashboard.jsx:166-195 | a blank note sends nothing; otherwise the request with the note is sent, and replaces its list entry once accepted |
| VolunteerDashboard.Dashboard.UpdateStatus | client/src/pages/VolunteerDashboard.jsx:197-227 | the proposed status is sent; once accepted a completed request leaves the list and another is merged |
| VolunteerDashboard.BlankNoteRefused | client/src/pages/VolunteerDashboard.jsx:167-170 | a note is refused exactly when it is only white space |
| RegisterForm.EmailAtShifted | client/src/pages/Register.jsx:83-87 | a match of the pattern is still a match, shifted, in any text that contains it |
| RegisterForm.EmailShapeFacts | client/src/pages/Register.jsx:83-87 | an accepted email has at least five characters, and text around a match does not matter |
| RegisterForm.EmailShapeExamples | client/src/pages/Register.jsx:83-87 | "a@b.c" and "my name a@b.c" pass the pattern, "a@bc" does not |
| RegisterForm.NameMessage | client/src/pages/Register.jsx:73-75 | a name message exactly when the name is empty |
| RegisterForm.UsernameMessage | client/src/pages/Register.jsx:77-81 | a username message exactly when it is shorter than three characters |
| RegisterForm.EmailMessage | client/src/pages/Register.jsx:83-87 | an email message exactly when it is empty or fails the pattern |
| RegisterForm.PasswordMessage | client/src/pages/Register.jsx:89-93 | a password message exactly when it is shorter than six characters |
| RegisterForm.ConfirmMessage | client/src/pages/Register.jsx:95-99 | a confirmation message exactly when it is empty or differs from the password |
| RegisterForm.AreaMessage | client/src/pages/Register.jsx:101-103 | an area message exactly when a volunteer gives none |
| RegisterForm.Record | client/src/pages/Register.jsx:70-103 | recording a field's message sets that field's entry and leaves every other entry as it was |
| RegisterForm.ValidateForm | client/src/pages/Register.jsx:70-107 | each field's message is recorded, and the form passes exactly when every rule holds, which is exactly when no message was recorded |
| RegisterForm.NoErrorsIffValid | client/src/pages/Register.jsx:105-106 | the dictionary is empty exactly when every rule holds |
| RegisterForm.SubmitPayload | client/src/pages/Register.jsx:117-122 | the payload is the form without the confirmation, with the area only for a volunteer |
| RegisterForm.ValidFormPassesServerAreaCheck | client/src/pages/Register.jsx:109-131 | a form the page accepts never meets the server's area refusal, and its password meets the schema's minimum |

## Findings

| source | as written | input that shows it | evidently intended | confidence | as-written member | corrected member |
|---|---|---|---|---|---|---|
| server/controllers/userController.js:350 | `...user.statistics.toObject()` is called on `statistics`, which User.js:50 declares `type: Object`, a plain object with no `toObject` method | any volunteer asking for their statistics | the volunteer's counters with the live counts and fallbacks, as `UserStatistics.View` gives | not executed; relies on Mongoose storing a `type: Object` path as a plain object | UserStatistics.StatsReplyDiffersFromView | UserStatistics.View |
| server/controllers/userController.js:388 | the same `toObject` call on the informer path | any informer asking for their statistics | the informer's counters with the live counts and fallbacks | not executed; relies on Mongoose storing a `type: Object` path as a plain object | UserStatistics.StatsReply | UserStatistics.View |

## Left out

- Authentication: JWT issuing and checking (`auth.js`, `generateToken`) are not modelled. The caller is a parameter, and a handler that would answer with a token answers with the user's id.
- bcrypt is a foreign call. A hash is the password it was made from, so comparing hashes is string equality.
- The `populate` calls, the fields excluded by `select('-password')`, and the `timestamps: true` fields are left out. They only shape responses.
- Handlers outside the core are left out: `getRescueRequestById`, `getUserById`, `getPetById`, `getRescuedPetById` and the `getRescueStats` aggregation.
- Request coordinates are left out. No handler decides anything on them.
- The text of `error.message` in 500 replies is not modelled; the model's 500 messages are placeholders. Mongoose cast errors for malformed ObjectIds are not modelled either: ids are naturals.
- Stored statistics are absent, `null`, or an object of integer counters. Other stored values, such as a string or a counter that is not a number, are not modelled; `$inc` would refuse them too.
- Concurrency: each handler runs as one atomic step. With the code's separate `findByIdAndUpdate` calls, interleaved requests could interleave their counter changes.
- Query order: `find` without a sort returns documents in an unspecified order, so the model returns sets. For sorted queries, documents of equal weight come out in no particular order.
- String lengths: the model counts characters. JavaScript's `.length` and Mongoose's `minlength` count UTF-16 code units (Register.jsx:79 and :91, User.js:26), so text outside the Basic Multilingual Plane is measured differently.
- Pet and record ages: `age` is a `Number` with `min: 0` (Pet.js:18-21, RescuedPet.js:18-21) and is modelled as an integer. Fractional ages and `NaN` are not modelled.
- Lower-casing covers ASCII letters only; JavaScript's Unicode case mapping is not modelled.
- PetController.GetPets: the location is matched as a literal, case-insensitive substring. Regular-expression metacharacters in the query are not interpreted.
- UserStatistics.GetUserStatistics: the repair is stored directly. The source saves a document loaded with only three fields selected, which runs no other validator.
- UserStatistics.InitializeUserStatistics: the reply's success message text is not modelled; the reply carries the count only.
- Query results as lists: `InitStatistics.InitializeStatistics` and `UserStatistics.InitializeUserStatistics` take the list their `find` returns as a parameter. The database decides its order. The requires clause states what the database guarantees: each selected user appears exactly once.
- Validation order: when several Mongoose validators fail, the model does not say which message comes first. A refused save is only a 400 or 500 whose message is not modelled.
- Client pages: rendering, toasts, mock data, loading flags and the calls in `api.js` are not modelled. The server's answer to each page call is a boolean parameter. `AuthContext` and the other dashboards are not part of this model.
- Console logging and the process exit of `initStatistics.js` are left out.
