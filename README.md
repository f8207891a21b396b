# MyReception core in Dafny

This project models the stateful core of MyReception, a FastAPI back end
with two services:

- **teleport_webrtc** is a remote-viewing dispatch service. A user creates a
  task (a route of checkpoints in a city). An executor accepts the task,
  which binds the executor and opens a per-task video channel. The executor
  later completes the task. Streamer and viewer sockets of a task meet in a
  connection registry, and the streamer's SDP offers are relayed to the
  viewer.
- **app** is a messaging and account service. It holds chats between user
  ids and `anon_` guests, with membership guards on sending and reading
  messages. It also holds user accounts and their token records, with
  registration, login, e-mail confirmation and password change.

Every table (SQL table or Mongo collection) is a `seq` of rows in storage
order, and every lookup returns the first matching row, as `.first()` and
`find_one` do. Mutable stores are classes: `TaskCrud.TaskTable`,
`Signaling.ConnectionManager`, `Chats.ChatService` and `UserTables.UserDb`.
Their methods are proved against value-level functions (`AcceptRows`,
`UpsertTokens`, `ReplaceUser`, ...), and the properties are proved as
lemmas about those functions. The delete, accept, complete, confirm and
password-change handlers are specified by a function that returns the HTTP
answer together with the table afterwards (`TaskApi.Outcome`,
`UserTables.Step`), and each handler method is proved equal to its
function. The other handlers that change a table (task creation, the chat
routes, registration and login) state their answer and the new table
directly in their `ensures`.

Modelling choices:

- **Truthiness.** Python truthiness is written out. `if task.executor_id`
  is false for executor 0. `if not target_user_id` is true for id 0.
  `not task.stream_url` is true for `""`. `not message.strip()` uses
  Python's whitespace set.
- **Opaque values.** bcrypt is a symbolic digest `Bcrypt(secret, salt)`,
  which verifies exactly its own secret. JWTs, uuid activation codes and
  salts are parameters supplied by the caller. Sockets are opaque handles.
  Signaling frames arrive already decoded. Coordinates are stored and copied
  but never computed on.

Files:

| file | module | models |
|---|---|---|
| common.dfy | Common | Option, HTTP errors, service results, decimal rendering of ids |
| task_crud.dfy | TaskCrud | teleport_webrtc/crud/tasks.py |
| task_api.dfy | TaskApi | task routes of teleport_webrtc/api/tasks.py |
| signaling.dfy | Signaling | `ConnectionManager` and the two WebSocket loops of teleport_webrtc/api/tasks.py |
| chats.dfy | Chats | app/services/chat_service/chat_service.py |
| chat_routes.dfy | ChatRoutes | app/api/chat/routers.py |
| user_tables.dfy | UserTables | app/crud/users/user_crud.py, app/crud/users/token_crud.py, app/crud/users.py |
| user_service.dfy | UserService | app/services/user_service.py |
| profile_service.dfy | Profiles | app/services/profile_service.py (and `get_profile` of app/services/user_service.py) |
| teleport_users.dfy | TeleportUsers | teleport_webrtc/api/users.py |

### Behaviour worth knowing

The model follows the code in each of these cases:

- **Complete has no state check.** `complete_task` checks only that the
  caller is the executor. It has no "must be in progress" check, so a
  completed task can be completed again (`TaskApi.CompleteRepeatable`).
  Completing a task nobody accepted gets 403, not a state error
  (`TaskApi.CompleteNeedsExecutor`).
- **Stream URL format.** The URL is
  `ws://127.0.0.1:8002/ws/video/<task id>`.
- **Viewer loop echoes.** The viewer loop sends every frame back to the
  viewer itself. Nothing is forwarded to the streamer, although the
  project's own signaling test expects the streamer to receive the viewer's
  answer (tests/test_tasks.py:243-253).
- **A frame without `type` ends the streamer loop.** It raises `KeyError`,
  which is not caught, so the handler ends and the streamer stays
  registered. It is not a per-frame error.
- **Accept is not atomic.** The accept route is a check followed by a set.
  The model runs calls one after another and claims nothing about races.

## Model

| member | source | states |
|---|---|---|
| TaskCrud.StreamUrlInjective | teleport_webrtc/crud/tasks.py:69 | the stream URL is a function of the task id that never gives two tasks the same URL |
| TaskCrud.SerializeCheckpoints | teleport_webrtc/crud/tasks.py:12-15 | checkpoints are stored as `{latitude, longitude}` records, same length, same order, same values |
| TaskCrud.FindTask | teleport_webrtc/crud/tasks.py:32-37 | `get_task_by_id` finds a task exactly when a row with that id exists, and the row it returns has that id |
| TaskCrud.DeleteRemovesExactly | teleport_webrtc/crud/tasks.py:39-47 | deleting a present id removes that task only (every other id finds the same task); an absent id changes nothing |
| TaskCrud.TaskTable.CreateTask | teleport_webrtc/crud/tasks.py:11-30 | a new row under a fresh id: request fields copied, `created_by` the user, status `pending`, no executor, no stream URL |
| TaskCrud.TaskTable.DeleteTask | teleport_webrtc/crud/tasks.py:39-47 | returns true exactly when the id existed; the table loses exactly that row |
| TaskCrud.TaskTable.AcceptTask | teleport_webrtc/crud/tasks.py:59-73 | None and no change for a missing id; otherwise the executor, `in_progress` and the stream URL overwrite the row, with no check of an earlier executor |
| TaskCrud.TaskTable.CompleteTask | teleport_webrtc/crud/tasks.py:75-83 | None for a missing id; otherwise `completed` whatever the earlier status |
| TaskApi.CheckpointsRoundTrip | teleport_webrtc/api/tasks.py:110 | reading stored checkpoints back gives the checkpoints that were sent |
| TaskApi.CreateTask | teleport_webrtc/api/tasks.py:78-87 | answers the id of the task it appended, created by the caller |
| TaskApi.GetAllTasks | teleport_webrtc/api/tasks.py:136-162 | one `TaskOut` per stored task, in table order |
| TaskApi.DeleteTask | teleport_webrtc/api/tasks.py:120-134 | 404 and no change for a missing task; otherwise the task is removed |
| TaskApi.AcceptTask | teleport_webrtc/api/tasks.py:170-193 | 404 for a missing task; 400 "Task already accepted" when an executor is set; otherwise the accept is stored and the stored stream URL is returned |
| TaskApi.CompleteTask | teleport_webrtc/api/tasks.py:198-215 | 403 unless the task exists and the caller is its executor; otherwise `completed` |
| TaskApi.GetTask | teleport_webrtc/api/tasks.py:90-118 | 404 "Task not found" exactly when no task has the id; otherwise the stored task's id, place, start coordinates, checkpoints, description and stream URL (None included) |
| TaskApi.WatchTask | teleport_webrtc/api/tasks.py:218-236 | 404 for a missing task; 400 "Stream not started yet" while the URL is None or empty; otherwise the stored, non-empty URL |
| TaskApi.GetAfterCreate | teleport_webrtc/api/tasks.py:90-118 | a task read right after creation is what was sent, with no stream URL; watching it is refused with 400 |
| TaskApi.MissingTaskAnswers | teleport_webrtc/api/tasks.py:99-102 | get, delete, accept and watch answer 404 for a missing task, complete answers 403, and none changes the table |
| TaskApi.SecondAcceptRejected | teleport_webrtc/api/tasks.py:184-185 | after a successful accept, a second accept by anyone gets 400 and changes nothing |
| TaskApi.CrudAcceptOverwrites | teleport_webrtc/crud/tasks.py:59-69 | the CRUD accept replaces whatever executor the task had |
| TaskApi.WatchAfterAccept | teleport_webrtc/api/tasks.py:218-236 | after a successful accept, watch returns exactly the URL accept returned |
| TaskApi.AcceptUrlDeterministic | teleport_webrtc/crud/tasks.py:69 | accepting one task id, on any table and by any executor, yields the same URL |
| TaskApi.CompleteNeedsExecutor | teleport_webrtc/api/tasks.py:207-210 | complete succeeds exactly when the task exists and the caller is its executor, so a never-accepted task gets 403 |
| TaskApi.CompleteRepeatable | teleport_webrtc/api/tasks.py:207-215 | the executor can complete a task twice; the second call succeeds and changes nothing more |
| TaskApi.DeleteThenGone | teleport_webrtc/api/tasks.py:129-132 | after a delete, get, watch and delete of that id answer 404 and every other task reads as before |
| TaskApi.CreateKeepsLifecycle | teleport_webrtc/crud/tasks.py:18-26 | a created task is pending with no executor and no stream URL, and the table stays consistent |
| TaskApi.AcceptKeepsLifecycle | teleport_webrtc/api/tasks.py:179-188 | the accept route keeps every task consistent (pending and unbound, or bound with its own URL) and never moves a status back |
| TaskApi.CompleteKeepsLifecycle | teleport_webrtc/api/tasks.py:207-213 | the complete route keeps every task consistent and never moves a status back |
| TaskApi.DeleteKeepsLifecycle | teleport_webrtc/api/tasks.py:120-134 | the delete route leaves the remaining tasks consistent, moves no status back, and every other id finds the same task as before |
| Signaling.ConnectionManager.constructor | teleport_webrtc/api/tasks.py:32-34 | both registries start empty |
| Signaling.ConnectionManager.ConnectStreamer | teleport_webrtc/api/tasks.py:36-38 | the streamer map gets the handle under the task id, replacing an earlier one; viewers untouched |
| Signaling.ConnectionManager.ConnectViewer | teleport_webrtc/api/tasks.py:40-42 | the viewer map gets the handle under the task id, replacing an earlier one; streamers untouched |
| Signaling.ConnectionManager.DisconnectStreamer | teleport_webrtc/api/tasks.py:44-46 | removes that key only from the streamer map; nothing happens when it is absent |
| Signaling.ConnectionManager.DisconnectViewer | teleport_webrtc/api/tasks.py:48-50 | removes that key only from the viewer map; nothing happens when it is absent |
| Signaling.ConnectionManager.SendSdp | teleport_webrtc/api/tasks.py:52-54 | the message goes unchanged to the registered viewer; with none, nothing is sent |
| Signaling.Handled | teleport_webrtc/api/tasks.py:246-248 | the loop processes the frames before the first frame without a `type`, and stops there |
| Signaling.OffersExactly | teleport_webrtc/api/tasks.py:248 | the forwarded frames are exactly the frames of type "offer" |
| Signaling.ConnectionManager.PumpStreamer | teleport_webrtc/api/tasks.py:245-250 | every offer, in arrival order, goes to the task's viewer; other types are ignored; an untyped frame ends the loop with an error |
| Signaling.EchoLoop | teleport_webrtc/api/tasks.py:260-263 | every viewer frame is sent back, unchanged and in order, to the same viewer |
| Signaling.StreamerEndpoint | teleport_webrtc/api/tasks.py:241-253 | registers the streamer and relays the offers; it unregisters on disconnect but stays registered after an untyped frame |
| Signaling.ViewerEndpoint | teleport_webrtc/api/tasks.py:256-266 | registers the viewer, echoes every frame back and unregisters on disconnect; nothing reaches the streamer |
| Signaling.RelayFaithful | teleport_webrtc/api/tasks.py:248-250 | with a viewer, it receives exactly the offers, unchanged and in order; without one, nothing is delivered |
| Chats.Dedup | app/services/chat_service/chat_service.py:17 | `list(set(..))` keeps the same participants, each once |
| Chats.DedupOfDistinct | app/services/chat_service/chat_service.py:17 | a list without duplicates is left as it is, so deduplicating twice equals deduplicating once |
| Chats.Messages | app/services/chat_service/chat_service.py:52-59 | the messages of a stored chat with that id, or the "Chat with ID … not found." error exactly when there is none |
| Chats.FindChat | app/services/chat_service/chat_service.py:56-59 | a chat is found exactly when one with that id is stored |
| Chats.PushMessageEffect | app/services/chat_service/chat_service.py:42-59 | a pushed message is read back last after the earlier messages; participants and other chats unchanged |
| Chats.ChatsOfExactly | app/services/chat_service/chat_service.py:61-66 | `get_chats_by_user` lists `{chat_id, participants}` of exactly the chats the user takes part in |
| Chats.UserIdByName | app/services/chat_service/chat_service.py:68-73 | the id of a user document with that username, or nothing when there is none |
| Chats.ChatService.CreateChat | app/services/chat_service/chat_service.py:10-29 | an empty list raises "Chat must have at least one participant."; otherwise a chat with the deduplicated participants and no messages is stored |
| Chats.ChatService.AddMessage | app/services/chat_service/chat_service.py:31-50 | blank text is refused before the lookup; a missing chat is refused with no change; otherwise the message is appended to that chat |
| ChatRoutes.NormalisedParticipants | app/api/chat/routers.py:35 | the normalised list holds the requested participants and the caller, each once, and is never empty |
| ChatRoutes.CheckOfNormalised | app/api/chat/routers.py:35-50 | the empty check cannot fire; the 400 validity check fires exactly when a requested participant is neither an int nor an `anon_` string |
| ChatRoutes.CreateChat | app/api/chat/routers.py:26-66 | invalid participants get 400 with nothing stored; otherwise a chat with the normalised participants is stored |
| ChatRoutes.SendMessage | app/api/chat/routers.py:68-93 | 403 unless the chat exists and the caller is a participant; blank text gives 500; otherwise the message is appended |
| ChatRoutes.GetChatMessages | app/api/chat/routers.py:95-118 | the messages of the chat exactly when it exists and lists the caller; every other call gets 403 "Access to this chat is denied." |
| ChatRoutes.GetUserChats | app/api/chat/routers.py:147-161 | `{chat_id, participants}` of exactly the chats that list the caller |
| ChatRoutes.ReadIsolated | app/api/chat/routers.py:104-111 | a message sent to another chat changes neither whether the caller may read this chat nor what it reads |
| ChatRoutes.CreatorCanRead | app/api/chat/routers.py:35-111 | the creator reads an empty message list from a new chat; a user it did not name gets 403 |
| ChatRoutes.SendThenRead | app/api/chat/routers.py:79-111 | a sent message is read back by every participant as the last message |
| ChatRoutes.StartChatByName | app/api/chat/routers.py:120-145 | 404 for an unknown username or a falsy id; otherwise a chat of the caller and the target is stored |
| ChatRoutes.StartedChatParticipants | app/api/chat/routers.py:137-138 | a chat started by name holds exactly the caller and the target (one entry when they coincide) |
| UserTables.UserByName | app/crud/users/user_crud.py:15-18 | a user with that username, or nothing exactly when none exists (the same query is at app/crud/users.py:17-20) |
| UserTables.UserById | app/crud/users/user_crud.py:20-23 | the user with that id, or nothing exactly when none exists (the same query is at app/crud/users.py:81-84) |
| UserTables.TokenOf | app/crud/users/token_crud.py:12-14 | the user's token record, or nothing when there is none |
| UserTables.NewUser | app/crud/users/user_crud.py:25-38 | the stored row carries the payload's contact fields, a digest that verifies the password and no other, the activation code and the activity flag |
| UserTables.UserDb.CreateUser | app/crud/users/user_crud.py:25-38 | appends that row under a fresh id (the same insert is at app/crud/users.py:22-35) |
| UserTables.ReplaceUserEffect | app/crud/users/user_crud.py:40-43 | after `update_user` the id finds the given row and every other id finds what it found before |
| UserTables.UserDb.UpdateUser | app/crud/users/user_crud.py:40-43 | commits the given row over the stored row with its id |
| UserTables.UpsertTokensEffect | app/crud/users/token_crud.py:11-29 | the user's record holds exactly the given tokens; a record is added only when the user had none; other users' records are untouched; at most one record per user |
| UserTables.UpsertTokensIdempotent | app/crud/users/token_crud.py:11-29 | saving the same tokens twice leaves the table as saving them once |
| UserTables.UserDb.SaveTokens | app/crud/users/token_crud.py:11-29 | performs the upsert and returns the record holding the given user id and tokens (the same upsert is at app/crud/users/user_crud.py:46-64 and app/crud/users.py:56-79) |
| UserTables.WithDevice | app/crud/users.py:43-48 | a login writes the six device fields and leaves every other field as it was |
| UserTables.UserDb.AuthenticateUser | app/crud/users.py:37-52 | unknown user or wrong password: False and no change; otherwise the device fields are written and the updated user returned |
| UserService.Register | app/services/user_service.py:51-58 | 400 "Username already taken" with no new row; otherwise an inactive user is stored whose activation code is the one returned |
| UserService.Login | app/services/user_service.py:60-69 | 401 "Invalid credentials" with no change; otherwise the issued tokens become the user's token record and are returned |
| UserService.ConfirmEmail | app/services/user_service.py:71-78 | performs the confirmation the lemmas below describe |
| UserService.ConfirmActivates | app/services/user_service.py:72-76 | confirmation succeeds exactly for the stored code; then the user is active and still holds the code; a refusal changes nothing |
| UserService.ConfirmRepeatable | app/services/user_service.py:71-78 | confirming again with the same code succeeds again and changes nothing more |
| Profiles.GetProfile | app/services/profile_service.py:26-38 | 404 "User not found" for an unknown id; otherwise the stored username, names, e-mail and phone unchanged (`UserService.get_profile` at app/services/user_service.py:91-103 is the same lookup) |
| Profiles.ChangePassword | app/services/profile_service.py:40-52 | performs the password change the lemma below describes and answers "Password updated successfully" |
| Profiles.PasswordChangeEffect | app/services/profile_service.py:41-50 | succeeds exactly when the old password verifies; a refusal changes nothing; after success the new password verifies, a different old one does not, and nothing else changes |
| Profiles.ProfileSurvivesPasswordChange | app/services/profile_service.py:48-50 | the profile read after a password change equals the profile read before |
| TeleportUsers.Register | teleport_webrtc/api/users.py:65-103 | 400 when the username is taken; otherwise an inactive user with code "1234" is stored and the issued tokens are saved for it |
| TeleportUsers.Login | teleport_webrtc/api/users.py:107-131 | 401 with no change for an unknown user or wrong password; otherwise the issued tokens are saved and returned |
| TeleportUsers.ConfirmEmail | teleport_webrtc/api/users.py:136-149 | performs the confirmation the lemma below describes |
| TeleportUsers.ConfirmIsOneShot | teleport_webrtc/api/users.py:141-146 | after a successful confirmation the user is active with no code, and the same confirmation is then refused and changes nothing |
| TeleportUsers.RegisterThenConfirm | teleport_webrtc/api/users.py:77-80 | a freshly registered user is inactive, and confirming with "1234" activates it |

## Left out

- WebSocket transport, `accept()` handshakes and JSON text encoding: handles are opaque and frames arrive decoded. A `json.loads` failure ends the streamer loop the same way an untyped frame does, and is not modelled separately.
- `send_sdp_offer` (teleport_webrtc/api/tasks.py:66-73) is an outbound network client and is not modelled.
- Concurrency: calls run one after another, and nothing is claimed about racing accepts or registrations.
- JWT encoding and decoding, bcrypt hashing and uuid generation are opaque. Tokens, codes and salts are parameters. The refresh-token routes are not modelled: `refresh_token` of teleport_webrtc/api/users.py:155-204 decodes the refresh token, mints a new access token (line 179) and saves both tokens with `save_tokens_to_db` (line 190); `UserService.refresh_token` (app/services/user_service.py:80-89) decodes the token and mints a new access token (line 88) without storing it. The protected route only decodes a JWT and is not modelled either.
- Database sessions (commit, refresh), Mongo ObjectId parsing and database failures are not modelled. So the "Error fetching messages.", "Could not fetch user chats." and "Internal server error." answers, and `create_chat`'s database ValueError, have no path in the model.
- Unique constraints on username, e-mail and phone are left to the database and not modelled. Lookups return the first match. `UserService.Register` is proved to keep usernames distinct.
- Mail, SMS, Celery, logging and the verification e-mail sent by the teleport register route are not modelled.
- Business cards are not modelled.
- TaskApi.GetAllTasks: the `creator` field of `TaskOut` (the joined user record) is not modelled.
- TaskApi.GetTask: the `creator` record it builds from the joined user (teleport_webrtc/api/tasks.py:113-117) is not modelled either.
- Chats: `ChatService.get_chat`, which the chat router calls, is absent from app/services/chat_service/chat_service.py. It is modelled as a lookup by id (`Chats.FindChat`).
- ChatRoutes (every route): app/api/chat/routers.py:5 imports `JWTAuth` from app/core/security.py, which does not define it (app/main.py:10 makes the same import), so the module as given cannot be imported. The model assumes that `jwt_auth.get_current_user_id` yields the caller's integer user id, and takes it as the parameter `current`.
- Profiles.GetProfile, Profiles.ChangePassword: app/services/profile_service.py:3 imports `PasswordChangeRequest`, which app/schemas/users.py does not define, so the module as given cannot be imported. The model assumes a request carrying `old_password` and `new_password` strings and takes them as the parameters `oldPassword` and `newPassword`.
- Chats.Dedup: Python leaves the order of `list(set(..))` open. The model keeps first occurrences, and the contracts promise only the same elements without duplicates.
- Pydantic coercion of request fields (e.g. `"5"` to `5` in `List[Union[int, str]]`) is not modelled. Participants arrive already typed.
- UserTables.UserDb.UpdateUser: requires that a row with the user's id exists. Committing an unknown row would insert it, which is not modelled. Every caller passes a row it has just looked up.
- teleport_webrtc/crud/users.py is not part of this model. The model assumes that its `UserCRUD` behaves like app/crud/users/user_crud.py and models the teleport routes with the same `UserDb` operations; the teleport `UserCreate` has no phone number, so a teleport registration corresponds to a `UserCreate` whose phone number is None. The teleport `users` columns `country`, `city` and `age` are not modelled.
- UserTables.NewUser, Profiles.PasswordChangeEffect: the symbolic digest is collision-free and depends on the whole password, so "verifies no other password" and "a different old password no longer verifies" hold in the model only. passlib's bcrypt (app/crud/users/user_crud.py:26, app/services/profile_service.py:42 and 48) uses only the first 72 bytes of the secret and refuses NUL bytes. Two passwords that share their first 72 UTF-8 bytes therefore verify against the same digest.
- The clock columns `users.created_at`, `users.updated_at` and `tokens.created_at` (app/models/users.py:17-18 and 39) are not modelled. The database rewrites `updated_at` on every commit of a user row, so UserTables.WithDevice, UserTables.ReplaceUserEffect and Profiles.PasswordChangeEffect, which say that the other fields keep their values, speak of the modelled fields only.
- The `token_type` column of token records (default "bearer") is not modelled. The teleport routes return "bearer" as a constant.
- Float coordinates are opaque `real` values that are copied but never computed on. `device_time` is an opaque integer instant.
