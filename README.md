# Virtual classroom: a verified model of the seat, hand-raise and update-round logic

This project models the coordination core of a course platform's virtual classroom.

- The HTTP request handlers of `web/virtual_classroom_views.py` are the methods of one
  sequential store, `VirtualClassroom.Store`. Its fields are the classroom, seat,
  hand-raise, update-round, update-turn and shared-content tables.
- The live channel of `web/consumers.py` is modelled in two parts:
  - pure authorization lookups and a pure routing function (`Consumers.Route`) that
    turns an incoming frame into "drop" or "send this event to this group";
  - two small classes with the state that `connect`, `disconnect` and `receive`
    change: the channel layer's group membership and its log of group sends, and the
    consumer's `user_id`.

Every handler returns a `Response`. That is either `Ok(action)`, with a tag for what
happened, or `Fail(failure)`. Each failure maps to the handler's HTTP status: 400, 403,
404, 409, 500, or 302 for the redirect of the page view.

The store keeps an invariant, `Store.Valid()` (`Records.StoreValid`). Every handler
preserves it. It states:
- each classroom's seats are exactly one seat per grid cell;
- seat status agrees with occupancy;
- a student holds at most one seat per classroom;
- a classroom has at most one speaker;
- a seat has at most one raised hand that has not been lowered;
- a seat has at most one turn per update round;
- references between tables are in range.

## Modelling conventions

- **Ids.** The database's ids start at 1. The store addresses a row by its table
  position, which is its database id minus 1. Rows are only ever appended, so a
  position is stable. The views' decoded requests and their responses carry positions:
  a JSON id `k >= 1` arrives as position `k - 1`. The consumer works on the database ids
  themselves and makes the same mapping explicit (`Consumers.RowOf`).
- **JSON.** Bodies arrive already decoded (`Body`, `HandRequest`, `RoundRequest`,
  `Upload`, `Consumers.Incoming`). A falsy id (absent, `null`, `0`, `""`) decodes to
  "none given", as the source's `if not seat_id` tests treat it. No database id is 0,
  so every real row stays addressable.
- **Clock and randomness.** `timezone.now()` is a `now` parameter. `random.choice` is a
  `pick` parameter, and the contract requires it to be one of the candidates.
- **Quirks kept as written.**
  - `select_seat` commits the release of the user's old seats even when it then answers
    404 or 409.
  - `raise_hand` with an unknown seat id answers 400: the 404 is raised inside a `try`
    whose generic handler turns it into 400.
  - `raise_hand` without a seat id acts on the user's first seat in any classroom.
  - `start_update_round` creates all its turns open. Completion is judged by which seats
    have a turn, not by which turns have ended. So when a round covers every seated seat,
    ending its first turn completes it while the other turns stay open
    (`RoundCompletesWithOpenTurns`).
  - `start_speaking` on a raise whose seat has lost its student fails inside the atomic
    block. That is a rollback with status 500.
  - A JSON upload with a link is always stored as a link.
  - The views admit the course teacher or anyone with a course or session enrollment of
    any status. The live channel requires an active course enrollment and a confirmed
    session enrollment. `Courses.ViewAccessIsWider` exhibits a user who gets the first
    and not the second.
  - `disconnect` leaves both groups and announces `user_left` without checking that the
    connection was ever accepted.
  - A chat recipient is put into the group name with Python's `str()`. So the string
    `"7"` and the number `7` name the same user group (`StringRecipientAliasesNumber`).
  - Django Channels accepts a group name only when it is non-empty, shorter than 100 characters and
    made of ASCII letters, digits, `-`, `_` and `.`; `group_send` raises otherwise. The
    `except Exception` at the end of `receive` catches that, so a chat to a recipient such
    as `"bob@example.com"` is logged and lost (`ChatToEmailDropped`).

## Model

| member | source | states |
|---|---|---|
| Query.Where | web/virtual_classroom_views.py:536 | a table filter lists exactly the rows satisfying the condition, in increasing row order |
| Query.First | web/virtual_classroom_views.py:192 | `.first()` finds a satisfying row with no satisfying row before it, or reports that none exists |
| Query.WhereNone | web/virtual_classroom_views.py:432-436 | a filter no row satisfies is empty |
| Records.GridCoversEachCellOnce | web/virtual_classroom_views.py:59-63 | the nested row/column loop yields, for each `0 <= row < rows` and `0 <= col < columns`, exactly one empty seat of the classroom at that cell and no other seat |
| Records.AppendGridKeepsLayout | web/virtual_classroom_views.py:57-63 | appending a new classroom together with its grid keeps every classroom's seats exactly one per cell |
| Records.StatusChangeKeepsSeatsValid | web/virtual_classroom_views.py:207-225 | changing only a seated seat's status keeps the seat invariants |
| Courses.HasEnrollment | web/virtual_classroom_views.py:44-53 | an enrollment `exists()` query is true exactly when some row has this student, target and (if given) status |
| Courses.ViewAccess | web/virtual_classroom_views.py:114-120 | the views admit a user exactly when the session exists and the user is its course teacher, or has an enrollment row of any status in the course or in the session |
| Courses.LiveAccess | web/consumers.py:309-316 | the channel admits a user exactly when the session exists and the user is its course teacher, or has both an active course enrollment row and a confirmed session enrollment row |
| Courses.LiveAccessImpliesViewAccess | web/consumers.py:301-320 | whoever may join the live channel may also use the request handlers |
| Courses.ViewAccessIsWider | web/virtual_classroom_views.py:114-123 | the converse fails: a lone pending session enrollment opens the views and not the channel |
| VirtualClassroom.ClassroomOf | web/virtual_classroom_views.py:57 | the classroom of a session is one with that session, and none means no classroom has it |
| VirtualClassroom.ReleaseAll | web/virtual_classroom_views.py:142-144 | afterwards the user holds no seat in the classroom; the released seats are empty, student-free and have no assignment time; every other seat and every seat's place is unchanged |
| VirtualClassroom.Reverted | web/virtual_classroom_views.py:241 | every speaking seat of the classroom becomes occupied and changes in nothing else; every other seat is unchanged; afterwards no seat of the classroom is speaking |
| VirtualClassroom.HandSeat | web/virtual_classroom_views.py:188-205 | the seat acted on is the user's; with an id it is that seat (400 if unknown, 403 if someone else's); without one it is the user's first seat anywhere, and 400 exactly when the user has none |
| VirtualClassroom.HandSeatReadsOnlyStudents | web/virtual_classroom_views.py:188-201 | the seat a hand request resolves to depends only on who sits where, so status changes cannot redirect it |
| VirtualClassroom.ActiveRaise | web/virtual_classroom_views.py:207 | the active raise of a seat is one on that seat not lowered, and none means every raise on it was lowered |
| VirtualClassroom.CheckUpload | web/virtual_classroom_views.py:271-342 | every rejection is 400; each missing or invalid field is rejected; every request passing all checks is accepted; an accepted file keeps its kind with an empty link; a multipart upload that sends a file stores that file even when a link is sent too; an accepted file-less upload is a non-empty link |
| VirtualClassroom.Candidates | web/virtual_classroom_views.py:356-373 | the candidate seats are exactly the classroom's occupied or speaking seats among those requested (all, if none are), in table order |
| VirtualClassroom.OtherTurnsElements | web/virtual_classroom_views.py:386-391 | every turn the loop creates is open, of this round, and for a listed seat other than the chosen one |
| VirtualClassroom.OtherTurnsCover | web/virtual_classroom_views.py:386-391 | every listed seat other than the chosen one gets a turn |
| VirtualClassroom.OtherTurnsDistinct | web/virtual_classroom_views.py:386-391 | for distinct seats the loop creates one turn per listed seat except the chosen one, all for distinct seats |
| VirtualClassroom.RoundTurnsCoverCandidates | web/virtual_classroom_views.py:381-391 | a new round gets exactly one open turn per candidate, the chosen seat's first |
| VirtualClassroom.Remaining | web/virtual_classroom_views.py:432-436 | the seats still owed a turn are exactly the seated, non-teacher seats of the classroom with no turn in the round |
| VirtualClassroom.CompletionIgnoresOpenTurns | web/virtual_classroom_views.py:432-461 | once every seated non-teacher seat of the classroom has a turn in the round, whether open or ended, no seat remains to be given one |
| VirtualClassroom.QueueOfLists | web/virtual_classroom_views.py:536-550 | the queue lists exactly the queued raises among those scanned, each with its seat, the seat's student and the raise time |
| VirtualClassroom.Store.constructor | web/virtual_classroom_views.py:41-63 | a fresh store has empty tables and satisfies the invariant |
| VirtualClassroom.Store.EnterClassroom | web/virtual_classroom_views.py:41-63 | 404 for an unknown session; a redirect with no change without access; an existing classroom is reused unchanged; otherwise exactly one classroom with the default size and its full grid of empty seats are created; the status is always 200, 302 or 404 |
| VirtualClassroom.Store.CreateClassroom | web/virtual_classroom_views.py:57-63 | appends the classroom and one empty seat per grid cell, keeping the invariant |
| VirtualClassroom.Store.AppendGrid | web/virtual_classroom_views.py:59-63 | the nested loop appends the grid's seats in row-major order |
| VirtualClassroom.Store.ReleaseSeatsOf | web/virtual_classroom_views.py:142-144 | the loop leaves the seat table as `ReleaseAll` describes |
| VirtualClassroom.Store.RevertSpeakers | web/virtual_classroom_views.py:241 | the loop leaves the seat table as `Reverted` describes |
| VirtualClassroom.Store.SelectSeat | web/virtual_classroom_views.py:110-171 | 404, 403 and 400 change nothing; otherwise the user's old seats are released (and stay released on 404 and 409); on success the user holds exactly the chosen seat of the classroom, occupied and stamped; 409 leaves the occupant in place; the status is always 200, 400, 403, 404 or 409 |
| VirtualClassroom.Store.ReleaseKeepsValid | web/virtual_classroom_views.py:142-144 | releasing a user's seats keeps the invariant |
| VirtualClassroom.Store.ClaimKeepsValid | web/virtual_classroom_views.py:152-155 | claiming a free seat in a classroom where the user holds none keeps the invariant, so one seat per student holds |
| VirtualClassroom.Store.RaiseHand | web/virtual_classroom_views.py:176-225 | invalid JSON 400 and lookup failures change nothing; otherwise lowers an active raise, creates a raise, or changes nothing, and afterwards the hand is up exactly when requested; no student ever moves; the status is always 200, 400 or 403 |
| VirtualClassroom.Store.Lower | web/virtual_classroom_views.py:210-216 | stamps the raise lowered and sets the seat occupied; no active raise remains on the seat |
| VirtualClassroom.Store.Raise | web/virtual_classroom_views.py:217-222 | appends an open raise and sets the seat to hand raised; the seat now has an active raise |
| VirtualClassroom.Store.LowerKeepsValid | web/virtual_classroom_views.py:210-216 | lowering keeps the invariant and leaves the seat with no active raise |
| VirtualClassroom.Store.RaiseKeepsValid | web/virtual_classroom_views.py:217-222 | raising on a seat with no active raise keeps the invariant, so a seat never has two active raises |
| VirtualClassroom.Store.StartSpeaking | web/virtual_classroom_views.py:230-257 | 404 for an unknown or lowered raise and 403 for a non-teacher change nothing; on success the raise is acknowledged, its seat speaks, and no other seat of the classroom speaks; the status is always 200, 403, 404 or 500 |
| VirtualClassroom.Store.SpeakKeepsValid | web/virtual_classroom_views.py:241-249 | reverting then setting one speaker keeps the invariant |
| VirtualClassroom.Store.UploadContent | web/virtual_classroom_views.py:262-342 | 404 for an unknown seat and 403 for a non-owner; a rejected upload creates no row; an accepted one appends exactly the validated row; the status is always 200, 400, 403 or 404 |
| VirtualClassroom.Store.StartUpdateRound | web/virtual_classroom_views.py:347-408 | 404 and 403 change nothing; no candidates gives 400 and no round; otherwise one round (default 60 seconds) and exactly one open turn per candidate, the picked seat's first; the status is always 200, 400, 403 or 404 |
| VirtualClassroom.Store.AppendRoundTurns | web/virtual_classroom_views.py:384-391 | the loop appends the chosen seat's turn, then one turn per other candidate in order |
| VirtualClassroom.Store.StartRoundKeepsValid | web/virtual_classroom_views.py:381-391 | a round with one turn per distinct classroom seat keeps the invariant |
| VirtualClassroom.Store.EndUpdateTurn | web/virtual_classroom_views.py:413-472 | 404 for an unknown or closed turn and 403 for anyone but the teacher or the seat's student change nothing; otherwise the turn closes and either a turn opens for a seat still owed one, or the round is stamped completed exactly when none is left; the status is always 200, 403 or 404 |
| VirtualClassroom.Store.CloseTurnKeepsValid | web/virtual_classroom_views.py:428-429 | closing a turn keeps the invariant |
| VirtualClassroom.Store.NextTurnKeepsValid | web/virtual_classroom_views.py:438-441 | a new turn for a classroom seat with no turn in the round keeps the invariant, so a seat gets at most one turn per round |
| VirtualClassroom.Store.RaisedHands | web/virtual_classroom_views.py:520-552 | 404 for an unknown classroom and 403 without access; otherwise the queue lists exactly the classroom's raised, unlowered hands on seated seats, each with its student and time, in raise order; the status is always 200, 403 or 404 |
| VirtualClassroom.Store.BuildQueue | web/virtual_classroom_views.py:540-550 | the loop builds the queue that `QueueOf` describes |
| VirtualClassroom.RepeatedRaiseIsNoOp | web/virtual_classroom_views.py:207-225 | a second identical successful hand request answers "unchanged" and leaves the seats and hand raises as the first request left them |
| VirtualClassroom.SeatedSeatsHaveTurns | web/virtual_classroom_views.py:356-391 | when no seated seat has its hand up, every seated seat is a candidate, so a round covering the candidates gives each seated seat a turn |
| VirtualClassroom.StartRoundOverAll | web/virtual_classroom_views.py:347-408 | a round started over all seats of a classroom with no hand up opens at least two turns and leaves no seated seat without one |
| VirtualClassroom.RoundCompletesWithOpenTurns | web/virtual_classroom_views.py:384-461 | in that round the teacher ending the first turn gets "completed" and the round is stamped ended, while the next turn of the round is still open |
| Wire.DigitChar | web/consumers.py:40 | a decimal digit renders as a digit character |
| Wire.Decimal | web/consumers.py:40 | the rendering of an id is non-empty digits without a leading zero, one digit exactly below ten |
| Wire.DigitCharInjective | web/consumers.py:40 | distinct digits render as distinct characters |
| Wire.DecimalInjective | web/consumers.py:40 | distinct ids render as distinct strings |
| Wire.DigitCharValue | web/consumers.py:40 | the character for digit d denotes d |
| Wire.DecimalRoundTrip | web/consumers.py:40 | reading the rendering of n back as a decimal number gives n |
| Wire.IntStrInjective | web/consumers.py:66 | distinct integers render as distinct strings, negatives included |
| Consumers.RowOf | web/consumers.py:297-299 | a database id names a row exactly when it lies between 1 and the table size |
| Consumers.SeatRow | web/consumers.py:334-342 | a seat id names a seat exactly when it is an integer within the seat table |
| Consumers.SessionOfClassroom | web/consumers.py:297-299 | a classroom id has a session exactly when the classroom exists |
| Consumers.IsTeacher | web/consumers.py:322-332 | true exactly when the classroom exists and its session's course teacher is the user; a missing classroom gives false |
| Consumers.IsSeatOwner | web/consumers.py:334-342 | true exactly when the seat exists and its student is the user; a missing or non-integer seat gives false |
| Consumers.CanUpdateSeat | web/consumers.py:344-358 | false for a missing classroom, else true exactly when the user is the teacher or the seat's student |
| Consumers.CheckUserClassroomAccess | web/consumers.py:301-320 | false for a missing classroom, else true exactly for the course teacher or a user with an active course enrollment and a confirmed session enrollment |
| Consumers.TeacherHasAccess | web/consumers.py:301-358 | the teacher may join the channel and may update every seat, whatever seat id is given |
| Consumers.GroupNamesSeparate | web/consumers.py:40-66 | classroom and user group names never coincide, and each kind gives one group per id, integer recipients (negative ones too) included |
| Consumers.StringRecipientAliasesNumber | web/consumers.py:193-197 | the string recipient "7" addresses the same group as user 7 |
| Consumers.Route | web/consumers.py:104-219 | invalid JSON, a missing type, an anonymous sender, a seat event without a seat id, an unknown type and a failed check all drop; each send goes to the classroom group only after its check passes, with exactly the payload the source builds: the frame's seat id and fields for seat, round and content events, and for hand raises the frame's seat id and flag (raised by default) with the sender's own id and name; every event that passes its check is sent when its group name is one the channel layer accepts, and dropped otherwise (the layer raises and `receive` catches it); chat goes to the classroom for "everyone" and otherwise to the recipient's group, and is sent exactly when that group name is valid |
| Consumers.ClassroomGroupValid | web/consumers.py:40 | a classroom id of fewer than 90 digits gives a group name the channel layer accepts |
| Consumers.OwnGroupValid | web/consumers.py:65-66 | a user id of fewer than 95 digits gives a group name the channel layer accepts |
| Consumers.PrefixedDecimalValid | web/consumers.py:40-66 | a letters-and-underscore prefix followed by a decimal id is a valid group name while it stays under 100 characters |
| Consumers.DirectChatIsSent | web/consumers.py:183-197 | a chat to a user id of fewer than 95 digits is sent, to that user's group |
| Consumers.ChatToEmailDropped | web/consumers.py:183-219 | a chat to the recipient "bob@example.com" is dropped: `user_bob@example.com` is not a valid group name, so `group_send` raises and the error is only logged |
| Consumers.DirectChatReachesOnlyRecipient | web/consumers.py:183-197 | a chat to user v goes to v's group, not to any classroom group or other user's group |
| Consumers.RenderChat | web/consumers.py:270-281 | absent sender, sender id and recipient default to "System", 0 and "everyone" |
| Consumers.RoutedChatNamesSender | web/consumers.py:183-281 | a routed chat renders with the real sender's name and id and the requested recipient, never the defaults |
| Consumers.ChannelLayer.constructor | web/consumers.py:63-67 | a new layer has no groups and no sends |
| Consumers.ChannelLayer.GroupAdd | web/consumers.py:63-67 | the channel joins the group; no other group changes |
| Consumers.ChannelLayer.GroupDiscard | web/consumers.py:86-92 | the channel leaves the group; no other group changes |
| Consumers.ChannelLayer.GroupSend | web/consumers.py:75-78 | the send is appended to the log |
| Consumers.Admit | web/consumers.py:43-60 | accepted exactly for an existing classroom and an authenticated user with access; 4004 exactly for a missing classroom, 4003 otherwise |
| Consumers.ClassroomConsumer.constructor | web/consumers.py:36-40 | a new connection has no user id and no outcome yet |
| Consumers.ClassroomConsumer.Connect | web/consumers.py:36-82 | a rejection joins no group and sends nothing; an acceptance joins the classroom and user groups, records the user id, and announces the join only for non-teachers |
| Consumers.ClassroomConsumer.Disconnect | web/consumers.py:84-102 | the connection leaves the classroom group and, when authenticated, its user group; the departure is announced only for non-teachers |
| Consumers.ClassroomConsumer.Receive | web/consumers.py:104-219 | appends exactly the send that `Route` chooses, and nothing when it drops |
| Consumers.ConnectThenDisconnect | web/consumers.py:36-102 | after connecting and disconnecting, the connection is in neither of its groups and no other group changed |

## Left out

- The `virtual_classroom` page render, its template context and the attendance
  `get_or_create`: presentation and attendance bookkeeping, not coordination.
- `content_detail`: formatting a stored row and decoding its description as JSON.
- JSON and multipart parsing: handlers take already-decoded bodies. JSON floats, lists
  and objects are not modelled; an id that is not an integer is "not found".
  Django's integer lookup would coerce some of these ids instead. The numeric string
  `"5"` would address seat 5. The boolean `true` would address seat 1, since
  `int(True) == 1`, so the channel would check ownership of seat 1 where the model drops
  the frame. `false` is falsy and is dropped either way.
- `select_seat` with a seat id that cannot be turned into an integer: Django raises and
  answers 500. The model includes only integer ids.
- Django's ORM, transactions and concurrent requests: one sequential store, with each
  atomic block as one method body. Queryset order is table order.
- The asynchronous transport, `accept`/`close` frames and the 4000 close on an
  unexpected exception: `connect`'s outcome is an `Admission` value instead.
- `connect`'s `group_add` with a group name the channel layer rejects: a classroom id of
  90 or more digits, or a user id of 95 or more, would make it raise and close with
  4000. `Connect` joins the groups unconditionally; `ClassroomGroupValid` and
  `OwnGroupValid` show the names are valid below those lengths.
- The other consumer event handlers: they only forward an event to the socket. Only
  `chat_message`'s defaults are modelled.
- The response message texts, logging and file storage URLs: these carry no decision.
  An uploaded file is an opaque reference.
- The default grid size: `models.py` is not part of this model, so the default rows and
  columns are parameters of `EnterClassroom`.
- Views and consumer id spaces: the store addresses rows by table position (database id
  minus 1), the consumer by database id. No member relates the two.
- Django's `@login_required` and `@require_POST`: every modelled request comes from an
  authenticated user and uses the right method (POST, and GET for the raised-hands
  queue). The login redirect for an anonymous user and the 405 for a wrong method are
  not modelled.
