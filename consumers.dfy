/**
 * The live channel of a classroom: the authorization lookups, the routing of an
 * incoming frame to a group, the rendering defaults of chat events, and the
 * group membership that connecting and disconnecting change.
 */
module Consumers {
  import opened Common
  import opened Records
  import opened Courses
  import opened Wire

  /** What the lookups may read: the course facts and the classroom and seat tables. */
  datatype Facts = Facts(dir: Directory, classrooms: seq<Classroom>, seats: seq<Seat>)

  /** The connection's `scope["user"]`. */
  datatype Principal = Anonymous | Member(id: UserId, username: string)

  /** Database ids start at 1: id `k` names table position `k - 1`. */
  function RowOf(id: int, size: nat): (r: Option<nat>)
    ensures r.Some? <==> 1 <= id <= size
    ensures r.Some? ==> r.value < size && r.value + 1 == id
  {
    if 1 <= id <= size then Some(id - 1) else None
  }

  /** A seat id from a frame: an integer id of an existing seat; anything else finds no seat. */
  function SeatRow(f: Facts, seatId: Json): (r: Option<nat>)
    ensures r.Some? ==> r.value < |f.seats| && seatId == JInt(r.value + 1)
    ensures seatId.JInt? && 1 <= seatId.i <= |f.seats| ==> r.Some?
  {
    if seatId.JInt? then RowOf(seatId.i, |f.seats|) else None
  }

  function SessionOfClassroom(f: Facts, classroomId: int): (r: Option<nat>)
    ensures r.Some? <==> 1 <= classroomId <= |f.classrooms|
  {
    match RowOf(classroomId, |f.classrooms|)
    case None => None
    case Some(c) => Some(f.classrooms[c].session)
  }

  /** `check_classroom_exists`. */
  predicate ClassroomExists(f: Facts, classroomId: int) {
    SessionOfClassroom(f, classroomId).Some?
  }

  /** `is_teacher`: the user teaches the course of the classroom's session; a missing classroom gives false. */
  function IsTeacher(f: Facts, user: UserId, classroomId: int): (b: bool)
    ensures b <==> exists c :: 0 <= c < |f.classrooms| && c + 1 == classroomId
                             && TeacherOf(f.dir, f.classrooms[c].session) == Some(user)
  {
    match SessionOfClassroom(f, classroomId)
    case None => false
    case Some(s) =>
      assert f.classrooms[classroomId - 1].session == s;
      IsCourseTeacher(f.dir, s, user)
  }

  /** `is_seat_owner`: the seat exists and its student is the user; the seat's classroom is not consulted. */
  function IsSeatOwner(f: Facts, user: UserId, seatId: Json): (b: bool)
    ensures b <==> exists k :: 0 <= k < |f.seats| && seatId == JInt(k + 1) && f.seats[k].student == Some(user)
  {
    match SeatRow(f, seatId)
    case None => false
    case Some(k) => f.seats[k].student == Some(user)
  }

  /** `can_update_seat`: with an existing classroom, its teacher, or else the seat's student. */
  function CanUpdateSeat(f: Facts, user: UserId, seatId: Json, classroomId: int): (b: bool)
    ensures !ClassroomExists(f, classroomId) ==> !b
    ensures ClassroomExists(f, classroomId) ==> (b <==> IsTeacher(f, user, classroomId) || IsSeatOwner(f, user, seatId))
  {
    match SessionOfClassroom(f, classroomId)
    case None => false
    case Some(s) =>
      if IsCourseTeacher(f.dir, s, user) then true
      else
        match SeatRow(f, seatId)
        case None => false
        case Some(k) => f.seats[k].student == Some(user)
  }

  /** `check_user_classroom_access`: the live channel's access rule on the classroom's session. */
  function CheckUserClassroomAccess(f: Facts, user: UserId, classroomId: int): (b: bool)
    ensures !ClassroomExists(f, classroomId) ==> !b
    ensures ClassroomExists(f, classroomId) ==>
              var s := f.classrooms[classroomId - 1].session;
              (b <==> (s in f.dir.sessions &&
                       (TeacherOf(f.dir, s) == Some(user)
                        || (HasEnrollment(f.dir.courseEnrollments, user, f.dir.sessions[s].course, Some("active"))
                            && HasEnrollment(f.dir.sessionEnrollments, user, s, Some("confirmed"))))))
  {
    match SessionOfClassroom(f, classroomId)
    case None => false
    case Some(s) => LiveAccess(f.dir, s, user)
  }

  /** The teacher is always admitted, and may update any seat, named or not. */
  lemma TeacherHasAccess(f: Facts, user: UserId, classroomId: int)
    requires IsTeacher(f, user, classroomId)
    ensures CheckUserClassroomAccess(f, user, classroomId)
    ensures forall s: Json :: CanUpdateSeat(f, user, s, classroomId)
  {
    var c :| 0 <= c < |f.classrooms| && c + 1 == classroomId
             && TeacherOf(f.dir, f.classrooms[c].session) == Some(user);
    assert SessionOfClassroom(f, classroomId) == Some(f.classrooms[c].session);
  }

  // ---------------------------------------------------------------------------
  // Group names

  /** `f"classroom_{classroom_id}"` for the route's integer id. */
  function ClassroomGroup(classroomId: nat): string {
    "classroom_" + Decimal(classroomId)
  }

  /** `f"user_{value}"` for any value. */
  function UserGroup(v: Json): string {
    "user_" + Str(v)
  }

  /** The group a user's connections join. */
  function OwnGroup(user: UserId): string {
    UserGroup(JInt(user))
  }

  /** A character the channel layer accepts in a group name. */
  predicate GroupNameChar(ch: char) {
    ('a' <= ch <= 'z') || ('A' <= ch <= 'Z') || ('0' <= ch <= '9') || ch == '-' || ch == '_' || ch == '.'
  }

  /**
   * The channel layer's rule for group names: non-empty, shorter than 100 characters, and
   * only ASCII letters, digits, `-`, `_` and `.`. `group_add` and `group_send` raise on
   * any other name.
   */
  predicate ValidGroupName(g: string) {
    0 < |g| < 100 && forall i :: 0 <= i < |g| ==> GroupNameChar(g[i])
  }

  /** A prefix of letters and `_` followed by decimal digits is a valid name while it is short enough. */
  lemma PrefixedDecimalValid(prefix: string, n: nat)
    requires 0 < |prefix| && forall i :: 0 <= i < |prefix| ==> GroupNameChar(prefix[i])
    requires |prefix| + |Decimal(n)| < 100
    ensures ValidGroupName(prefix + Decimal(n))
  {
    var g := prefix + Decimal(n);
    forall i | 0 <= i < |g| ensures GroupNameChar(g[i]) {
      if i >= |prefix| {
        assert g[i] == Decimal(n)[i - |prefix|];
      }
    }
  }

  /** Every classroom id of fewer than 90 digits names a valid classroom group. */
  lemma ClassroomGroupValid(c: nat)
    requires |Decimal(c)| < 90
    ensures ValidGroupName(ClassroomGroup(c))
  {
    PrefixedDecimalValid("classroom_", c);
  }

  /** Every user id of fewer than 95 digits names a valid user group. */
  lemma OwnGroupValid(u: UserId)
    requires |Decimal(u)| < 95
    ensures ValidGroupName(OwnGroup(u))
  {
    PrefixedDecimalValid("user_", u);
  }

  /** Classroom groups and user groups never coincide, and each kind is one group per id (any integer recipient). */
  lemma GroupNamesSeparate(c: nat, d: nat, v: Json, a: UserId, b: UserId)
    ensures ClassroomGroup(c) != UserGroup(v)
    ensures ClassroomGroup(c) == ClassroomGroup(d) ==> c == d
    ensures OwnGroup(a) == OwnGroup(b) ==> a == b
    ensures forall i: int, j: int :: UserGroup(JInt(i)) == UserGroup(JInt(j)) ==> i == j
  {
    assert ClassroomGroup(c)[0] == 'c' && UserGroup(v)[0] == 'u';
    if ClassroomGroup(c) == ClassroomGroup(d) {
      assert ClassroomGroup(c)[10..] == Decimal(c) && ClassroomGroup(d)[10..] == Decimal(d);
      DecimalInjective(c, d);
    }
    if OwnGroup(a) == OwnGroup(b) {
      assert OwnGroup(a)[5..] == Decimal(a) && OwnGroup(b)[5..] == Decimal(b);
      DecimalInjective(a, b);
    }
    forall i: int, j: int | UserGroup(JInt(i)) == UserGroup(JInt(j)) ensures i == j {
      assert UserGroup(JInt(i))[5..] == IntStr(i) && UserGroup(JInt(j))[5..] == IntStr(j);
      IntStrInjective(i, j);
    }
  }

  /** The recipient string `"7"` and the number `7` address the same user group. */
  lemma StringRecipientAliasesNumber()
    ensures UserGroup(JStr("7")) == OwnGroup(7)
  {
    assert Decimal(7) == "7";
  }

  // ---------------------------------------------------------------------------
  // Incoming frames and the events they produce

  /** A received text frame: not a JSON object, or the object's members. */
  datatype Incoming = Malformed | Frame(fields: map<string, Json>)

  /** `data.get(key)`, `None` for an absent key. */
  function Get(fields: map<string, Json>, key: string): Json {
    if key in fields then fields[key] else JNull
  }

  /** `data.get(key, default)`. */
  function GetOr(fields: map<string, Json>, key: string, default: Json): Json {
    if key in fields then fields[key] else default
  }

  /**
   * The event a group send carries. Keys the sender always sets are plain values;
   * chat keys the rendering supplies defaults for are optional.
   */
  datatype Event =
    | UserJoined(userId: UserId, username: string)
    | UserLeft(userId: UserId, username: string)
    | SeatUpdate(seatId: Json, status: Json, studentId: Json, studentName: Json)
    | HandRaiseEvent(seatId: Json, raised: Json, studentId: Json, studentName: Json)
    | UpdateRoundEvent(roundId: Json, action: Json, currentStudent: Json, remainingTime: Json)
    | ChatEvent(message: Json, sender: Option<Json>, senderId: Option<Json>, recipient: Option<Json>)
    | ContentShareEvent(seatId: Json, contentId: Json, contentType: Json, link: Json, description: Json)

  datatype Dispatch = Drop | Send(group: string, event: Event)

  /**
   * `group_send` to `g`: the send, or nothing when the layer rejects the name, since the
   * error it raises is caught and logged by `receive`.
   */
  function Deliver(g: string, e: Event): Dispatch {
    if ValidGroupName(g) then Send(g, e) else Drop
  }

  /** `receive`'s branch chain for the connection to `classroomId` of `who`. */
  function Route(f: Facts, classroomId: nat, who: Principal, msg: Incoming): (d: Dispatch)
    // the drops
    ensures msg.Malformed? ==> d.Drop?
    ensures msg.Frame? && !Truthy(Get(msg.fields, "type")) ==> d.Drop?
    ensures who.Anonymous? ==> d.Drop?
    ensures (msg.Frame? && Get(msg.fields, "type") in {JStr("seat_update"), JStr("hand_raise"), JStr("content_share")}
             && !Truthy(Get(msg.fields, "seat_id"))) ==> d.Drop?
    ensures (msg.Frame? && Get(msg.fields, "type")
               !in {JStr("seat_update"), JStr("hand_raise"), JStr("update_round"), JStr("chat_message"), JStr("content_share")})
            ==> d.Drop?
    // what is sent, and when
    ensures d.Send? ==> msg.Frame? && who.Member?
    // a send whose group name the layer rejects raises, and receive catches it
    ensures d.Send? ==> ValidGroupName(d.group)
    ensures d.Send? && d.event.SeatUpdate? ==>
              && Get(msg.fields, "type") == JStr("seat_update")
              && d.group == ClassroomGroup(classroomId)
              && CanUpdateSeat(f, who.id, d.event.seatId, classroomId)
              && d.event == SeatUpdate(Get(msg.fields, "seat_id"), Get(msg.fields, "status"),
                                       Get(msg.fields, "student_id"), Get(msg.fields, "student_name"))
    ensures d.Send? && d.event.HandRaiseEvent? ==>
              && Get(msg.fields, "type") == JStr("hand_raise")
              && d.group == ClassroomGroup(classroomId)
              && IsSeatOwner(f, who.id, d.event.seatId)
              // the frame's seat and flag (raised by default), with the sender's own identity
              // whatever the frame claims
              && d.event == HandRaiseEvent(Get(msg.fields, "seat_id"), GetOr(msg.fields, "raised", JBool(true)),
                                           JInt(who.id), JStr(who.username))
    ensures d.Send? && d.event.UpdateRoundEvent? ==>
              && Get(msg.fields, "type") == JStr("update_round")
              && d.group == ClassroomGroup(classroomId) && IsTeacher(f, who.id, classroomId)
              && d.event == UpdateRoundEvent(Get(msg.fields, "round_id"), Get(msg.fields, "action"),
                                             Get(msg.fields, "current_student"), Get(msg.fields, "remaining_time"))
    ensures d.Send? && d.event.ContentShareEvent? ==>
              && Get(msg.fields, "type") == JStr("content_share")
              && d.group == ClassroomGroup(classroomId) && IsSeatOwner(f, who.id, d.event.seatId)
              && d.event == ContentShareEvent(Get(msg.fields, "seat_id"), Get(msg.fields, "content_id"),
                                              Get(msg.fields, "content_type"), Get(msg.fields, "link"),
                                              Get(msg.fields, "description"))
    ensures d.Send? && d.event.ChatEvent? ==>
              && Get(msg.fields, "type") == JStr("chat_message")
              && d.event == ChatEvent(Get(msg.fields, "message"), Some(JStr(who.username)), Some(JInt(who.id)),
                                      Some(Get(msg.fields, "recipient")))
              && d.group == (if Get(msg.fields, "recipient") == JStr("everyone") then ClassroomGroup(classroomId)
                             else UserGroup(Get(msg.fields, "recipient")))
    ensures d.Send? ==> !d.event.UserJoined? && !d.event.UserLeft?
    // and nothing that passes its check is dropped
    ensures (msg.Frame? && who.Member? && Get(msg.fields, "type") == JStr("seat_update")
             && Truthy(Get(msg.fields, "seat_id")) && CanUpdateSeat(f, who.id, Get(msg.fields, "seat_id"), classroomId)
             && ValidGroupName(ClassroomGroup(classroomId)))
            ==> d.Send?
    ensures (msg.Frame? && who.Member? && Get(msg.fields, "type") in {JStr("hand_raise"), JStr("content_share")}
             && Truthy(Get(msg.fields, "seat_id")) && IsSeatOwner(f, who.id, Get(msg.fields, "seat_id"))
             && ValidGroupName(ClassroomGroup(classroomId)))
            ==> d.Send?
    ensures msg.Frame? && who.Member? && Get(msg.fields, "type") == JStr("update_round")
            ==> (d.Send? <==> IsTeacher(f, who.id, classroomId) && ValidGroupName(ClassroomGroup(classroomId)))
    ensures msg.Frame? && who.Member? && Get(msg.fields, "type") == JStr("chat_message")
            ==> (d.Send? <==> ValidGroupName(if Get(msg.fields, "recipient") == JStr("everyone") then ClassroomGroup(classroomId)
                                             else UserGroup(Get(msg.fields, "recipient"))))
  {
    match msg
    case Malformed => Drop
    case Frame(fields) =>
      var kind := Get(fields, "type");
      if !Truthy(kind) then Drop
      else
        match who
        case Anonymous => Drop
        case Member(id, username) =>
          var seatId := Get(fields, "seat_id");
          var room := ClassroomGroup(classroomId);
          if kind == JStr("seat_update") then
            if !Truthy(seatId) || !CanUpdateSeat(f, id, seatId, classroomId) then Drop
            else Deliver(room, SeatUpdate(seatId, Get(fields, "status"), Get(fields, "student_id"), Get(fields, "student_name")))
          else if kind == JStr("hand_raise") then
            if !Truthy(seatId) || !IsSeatOwner(f, id, seatId) then Drop
            else Deliver(room, HandRaiseEvent(seatId, GetOr(fields, "raised", JBool(true)), JInt(id), JStr(username)))
          else if kind == JStr("update_round") then
            if !IsTeacher(f, id, classroomId) then Drop
            else Deliver(room, UpdateRoundEvent(Get(fields, "round_id"), Get(fields, "action"),
                                                Get(fields, "current_student"), Get(fields, "remaining_time")))
          else if kind == JStr("chat_message") then
            var recipient := Get(fields, "recipient");
            Deliver(if recipient == JStr("everyone") then room else UserGroup(recipient),
                    ChatEvent(Get(fields, "message"), Some(JStr(username)), Some(JInt(id)), Some(recipient)))
          else if kind == JStr("content_share") then
            if !Truthy(seatId) || !IsSeatOwner(f, id, seatId) then Drop
            else Deliver(room, ContentShareEvent(seatId, Get(fields, "content_id"), Get(fields, "content_type"),
                                                 Get(fields, "link"), Get(fields, "description")))
          else Drop
  }

  /** A direct chat to user `v` goes to that user's group alone: no classroom and no other user gets it. */
  lemma DirectChatReachesOnlyRecipient(f: Facts, classroomId: nat, who: Principal, msg: Incoming, v: UserId)
    requires msg.Frame? && Get(msg.fields, "recipient") == JInt(v)
    requires Route(f, classroomId, who, msg).Send?
    requires Route(f, classroomId, who, msg).event.ChatEvent?
    ensures Route(f, classroomId, who, msg).group == OwnGroup(v)
    ensures forall c: nat :: Route(f, classroomId, who, msg).group != ClassroomGroup(c)
    ensures forall u: UserId :: u != v ==> Route(f, classroomId, who, msg).group != OwnGroup(u)
  {
    var g := Route(f, classroomId, who, msg).group;
    forall c: nat ensures g != ClassroomGroup(c) {
      GroupNamesSeparate(c, c, JInt(v), v, v);
    }
    forall u: UserId | u != v ensures g != OwnGroup(u) {
      GroupNamesSeparate(classroomId, classroomId, JInt(v), u, v);
    }
  }

  /** A chat to a user id of fewer than 95 digits is sent, to that user's group. */
  lemma DirectChatIsSent(f: Facts, classroomId: nat, who: Principal, fields: map<string, Json>, v: UserId)
    requires who.Member? && Get(fields, "type") == JStr("chat_message") && Get(fields, "recipient") == JInt(v)
    requires |Decimal(v)| < 95
    ensures Route(f, classroomId, who, Frame(fields)).Send?
    ensures Route(f, classroomId, who, Frame(fields)).group == OwnGroup(v)
  {
    OwnGroupValid(v);
  }

  /**
   * A chat addressed by e-mail address is lost: `user_bob@example.com` is not a name the
   * channel layer accepts, so `group_send` raises and `receive` only logs the error.
   */
  lemma ChatToEmailDropped(f: Facts, classroomId: nat, who: Principal, fields: map<string, Json>)
    requires who.Member? && Get(fields, "type") == JStr("chat_message")
    requires Get(fields, "recipient") == JStr("bob@example.com")
    ensures Route(f, classroomId, who, Frame(fields)) == Drop
  {
    assert UserGroup(JStr("bob@example.com"))[8] == '@';
  }

  /** The chat frame a client receives, after `chat_message`'s defaults. */
  datatype ChatFrame = ChatFrame(message: Json, sender: Json, senderId: Json, recipient: Json)

  /** `chat_message`: "System", 0 and "everyone" stand in for a missing sender, sender id and recipient. */
  function RenderChat(message: Json, sender: Option<Json>, senderId: Option<Json>, recipient: Option<Json>): (c: ChatFrame)
    ensures c.message == message
    ensures c.sender == (if sender.Some? then sender.value else JStr("System"))
    ensures c.senderId == (if senderId.Some? then senderId.value else JInt(0))
    ensures c.recipient == (if recipient.Some? then recipient.value else JStr("everyone"))
  {
    ChatFrame(message, sender.GetOr(JStr("System")), senderId.GetOr(JInt(0)), recipient.GetOr(JStr("everyone")))
  }

  /** For a chat routed here the defaults never apply: the frame names the real sender. */
  lemma RoutedChatNamesSender(f: Facts, classroomId: nat, who: Principal, msg: Incoming)
    requires Route(f, classroomId, who, msg).Send? && Route(f, classroomId, who, msg).event.ChatEvent?
    ensures var e := Route(f, classroomId, who, msg).event;
      var c := RenderChat(e.message, e.sender, e.senderId, e.recipient);
      c.sender == JStr(who.username) && c.senderId == JInt(who.id) && c.recipient == Get(msg.fields, "recipient")
  {
  }

  // ---------------------------------------------------------------------------
  // Group membership

  function Members(groups: map<string, set<string>>, g: string): set<string> {
    if g in groups then groups[g] else {}
  }

  /** The channel layer's groups and the group sends made so far, in order. */
  class ChannelLayer {
    var groups: map<string, set<string>>
    var sent: seq<(string, Event)>

    constructor ()
      ensures groups == map[] && sent == []
    {
      groups, sent := map[], [];
    }

    method GroupAdd(g: string, channel: string)
      modifies this`groups
      ensures groups == old(groups)[g := Members(old(groups), g) + {channel}]
      ensures Members(groups, g) == Members(old(groups), g) + {channel}
      ensures forall h :: h != g ==> Members(groups, h) == Members(old(groups), h)
    {
      groups := groups[g := Members(groups, g) + {channel}];
    }

    method GroupDiscard(g: string, channel: string)
      modifies this`groups
      ensures groups == old(groups)[g := Members(old(groups), g) - {channel}]
      ensures Members(groups, g) == Members(old(groups), g) - {channel}
      ensures forall h :: h != g ==> Members(groups, h) == Members(old(groups), h)
    {
      groups := groups[g := Members(groups, g) - {channel}];
    }

    method GroupSend(g: string, e: Event)
      modifies this`sent
      ensures sent == old(sent) + [(g, e)]
    {
      sent := sent + [(g, e)];
    }
  }

  /** How `connect` ends: closed with a code, or accepted. */
  datatype Admission = Closed(code: int) | Accepted

  /** `connect`'s decision: 4004 for a missing classroom, 4003 for an anonymous or unauthorized user. */
  function Admit(f: Facts, classroomId: nat, who: Principal): (a: Admission)
    ensures a.Accepted? <==> ClassroomExists(f, classroomId) && who.Member?
                             && CheckUserClassroomAccess(f, who.id, classroomId)
    ensures a == Closed(4004) <==> !ClassroomExists(f, classroomId)
    ensures a.Closed? ==> a.code == 4004 || a.code == 4003
  {
    if !ClassroomExists(f, classroomId) then Closed(4004)
    else if who.Anonymous? || !CheckUserClassroomAccess(f, who.id, classroomId) then Closed(4003)
    else Accepted
  }

  class ClassroomConsumer {
    const channelName: string
    const layer: ChannelLayer
    /** The route's `classroom_id`. */
    const classroomId: nat
    /** `scope["user"]`. */
    const who: Principal
    var userId: Option<UserId>
    var outcome: Option<Admission>

    constructor (channelName: string, layer: ChannelLayer, classroomId: nat, who: Principal)
      ensures this.channelName == channelName && this.layer == layer
      ensures this.classroomId == classroomId && this.who == who
      ensures userId.None? && outcome.None?
    {
      this.channelName, this.layer := channelName, layer;
      this.classroomId, this.who := classroomId, who;
      userId, outcome := None, None;
    }

    /**
     * `connect`: on admission the channel joins the classroom group and the user's own
     * group, and a non-teacher's arrival is announced to the classroom.
     */
    method Connect(f: Facts)
      modifies this`userId, this`outcome, layer
      ensures outcome == Some(Admit(f, classroomId, who))
      ensures Admit(f, classroomId, who).Closed? ==>
                layer.groups == old(layer.groups) && layer.sent == old(layer.sent) && userId == old(userId)
      ensures Admit(f, classroomId, who).Accepted? ==>
                var room, own := ClassroomGroup(classroomId), OwnGroup(who.id);
                && layer.groups == old(layer.groups)[room := Members(old(layer.groups), room) + {channelName}]
                     [own := Members(old(layer.groups)[room := Members(old(layer.groups), room) + {channelName}], own) + {channelName}]
                && channelName in Members(layer.groups, room) && channelName in Members(layer.groups, own)
                && userId == Some(who.id)
                && layer.sent == old(layer.sent)
                     + (if IsTeacher(f, who.id, classroomId) then [] else [(room, UserJoined(who.id, who.username))])
    {
      var decision := Admit(f, classroomId, who);
      if decision.Closed? {
        outcome := Some(decision);
        return;
      }
      var room, own := ClassroomGroup(classroomId), OwnGroup(who.id);
      GroupNamesSeparate(classroomId, classroomId, JInt(who.id), who.id, who.id);
      layer.GroupAdd(room, channelName);
      layer.GroupAdd(own, channelName);
      userId := Some(who.id);
      if !IsTeacher(f, who.id, classroomId) {
        layer.GroupSend(room, UserJoined(who.id, who.username));
      }
      outcome := Some(decision);
    }

    /**
     * `disconnect`: leave the classroom group, and for an authenticated user leave the
     * own group and announce a non-teacher's departure. It does not look at whether
     * `connect` admitted the connection.
     */
    method Disconnect(f: Facts)
      modifies layer
      ensures var room := ClassroomGroup(classroomId);
        var left := old(layer.groups)[room := Members(old(layer.groups), room) - {channelName}];
        match who
        case Anonymous =>
          layer.groups == left && layer.sent == old(layer.sent)
        case Member(id, username) =>
          && layer.groups == left[OwnGroup(id) := Members(left, OwnGroup(id)) - {channelName}]
          && layer.sent == old(layer.sent)
               + (if IsTeacher(f, id, classroomId) then [] else [(room, UserLeft(id, username))])
      ensures channelName !in Members(layer.groups, ClassroomGroup(classroomId))
      ensures who.Member? ==> channelName !in Members(layer.groups, OwnGroup(who.id))
    {
      var room := ClassroomGroup(classroomId);
      layer.GroupDiscard(room, channelName);
      if who.Member? {
        GroupNamesSeparate(classroomId, classroomId, JInt(who.id), who.id, who.id);
        layer.GroupDiscard(OwnGroup(who.id), channelName);
        if !IsTeacher(f, who.id, classroomId) {
          layer.GroupSend(room, UserLeft(who.id, who.username));
        }
      }
    }

    /** `receive`: at most one group send, as `Route` decides; the connection stays open. */
    method Receive(f: Facts, msg: Incoming)
      modifies layer`sent
      ensures layer.sent == old(layer.sent) + match Route(f, classroomId, who, msg)
                                              case Drop => []
                                              case Send(g, e) => [(g, e)]
    {
      var d := Route(f, classroomId, who, msg);
      if d.Send? {
        layer.GroupSend(d.group, d.event);
      }
    }
  }

  /**
   * Connecting and then disconnecting leaves every group as it was, except that this
   * channel is in neither the classroom group nor the user's own group.
   */
  method ConnectThenDisconnect(consumer: ClassroomConsumer, f: Facts)
    modifies consumer, consumer.layer
    ensures var room, layer := ClassroomGroup(consumer.classroomId), consumer.layer;
      && consumer.channelName !in Members(layer.groups, room)
      && (consumer.who.Member? ==> consumer.channelName !in Members(layer.groups, OwnGroup(consumer.who.id)))
      && forall g :: g != room && (consumer.who.Member? ==> g != OwnGroup(consumer.who.id)) ==>
           Members(layer.groups, g) == Members(old(layer.groups), g)
  {
    consumer.Connect(f);
    consumer.Disconnect(f);
  }
}
