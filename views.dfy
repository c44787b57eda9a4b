/**
 * The request handlers of the virtual classroom, as one sequential store whose
 * methods are the handlers' transitions. Each `transaction.atomic()` block is one
 * method body; a handler that returns an error response inside such a block still
 * commits what it changed before returning, as the source does.
 */
module VirtualClassroom {
  import opened Common
  import opened Query
  import opened Records
  import opened Courses

  // ---------------------------------------------------------------------------
  // Responses and decoded requests

  datatype Failure = BadRequest | Forbidden | NotFound | Conflict | ServerError | Redirect

  function StatusCode(f: Failure): nat {
    match f
    case BadRequest => 400
    case Forbidden => 403
    case NotFound => 404
    case Conflict => 409
    case ServerError => 500
    case Redirect => 302
  }

  datatype QueueEntry = QueueEntry(hand: nat, student: UserId, seat: nat, raisedAt: Time)

  /** What a successful handler reports. */
  datatype Action =
    | Entered(classroom: nat, created: bool)
    | SeatSelected(seat: nat)
    | Raised
    | Lowered
    | Unchanged
    | NowSpeaking(student: UserId, seat: nat)
    | ContentShared(content: nat, kind: ContentKind)
    | RoundStarted(round: nat, turn: nat, student: UserId)
    | NextTurn(turn: nat, student: UserId)
    | RoundCompleted(round: nat)
    | Queue(entries: seq<QueueEntry>)

  datatype Response = Ok(action: Action) | Fail(failure: Failure) {
    function Status(): nat {
      if Ok? then 200 else StatusCode(failure)
    }
  }

  /**
   * A request body after JSON decoding. An id is decoded to a table position, the database
   * id minus 1; falsy ids (absent, null, 0, "") decode to `None`.
   */
  datatype Body<T> = Parsed(value: T) | InvalidJson

  datatype HandRequest = HandRequest(seatId: Option<nat>, raised: bool)

  /** `seats` empty means "not given": every occupied seat takes part. */
  datatype RoundRequest = RoundRequest(durationSeconds: Option<int>, seatIds: seq<nat>)

  /** An upload request; absent or empty string fields are "". */
  datatype Upload =
    | Multipart(file: Option<FileRef>, contentType: string, description: string, link: string)
    | JsonUpload(contentType: string, description: string, link: string)
    | MalformedJson
    | OtherMediaType

  // ---------------------------------------------------------------------------
  // Lookups and bulk updates on the tables

  /** The classroom of a session, if one was created (`get_or_create`'s get). */
  function ClassroomOf(classrooms: seq<Classroom>, session: nat): (r: Option<nat>)
    ensures r.Some? ==> r.value < |classrooms| && classrooms[r.value].session == session
    ensures r.None? ==> forall k :: 0 <= k < |classrooms| ==> classrooms[k].session != session
  {
    var p := (k: nat) => k < |classrooms| && classrooms[k].session == session;
    assert forall k :: 0 <= k < |classrooms| ==> p(k) == (classrooms[k].session == session);
    First(|classrooms|, p)
  }

  predicate HeldBy(s: Seat, user: UserId, c: nat) {
    s.classroom == c && s.student == Some(user)
  }

  function Release(s: Seat): Seat {
    s.(student := None, status := Empty, assignedAt := None)
  }

  function Claim(s: Seat, user: UserId, now: Time): Seat {
    s.(student := Some(user), status := Occupied, assignedAt := Some(now))
  }

  /** The bulk `filter(classroom=c, student=user).update(student=None, status="empty", assigned_at=None)`. */
  function ReleaseAll(seats: seq<Seat>, user: UserId, c: nat): (r: seq<Seat>)
    ensures SamePlaces(seats, r)
    ensures forall k :: 0 <= k < |r| ==> !HeldBy(r[k], user, c)
    ensures forall k :: 0 <= k < |r| && !HeldBy(seats[k], user, c) ==> r[k] == seats[k]
    ensures forall k :: 0 <= k < |r| && HeldBy(seats[k], user, c) ==>
              r[k].student.None? && r[k].status == Empty && r[k].assignedAt.None?
  {
    seq(|seats|, k requires 0 <= k < |seats| => if HeldBy(seats[k], user, c) then Release(seats[k]) else seats[k])
  }

  /** The bulk `filter(classroom=c, status="speaking").update(status="occupied")`. */
  function Reverted(seats: seq<Seat>, c: nat): (r: seq<Seat>)
    ensures SamePlaces(seats, r)
    ensures forall k :: 0 <= k < |r| && r[k].classroom == c ==> r[k].status != Speaking
    ensures forall k :: 0 <= k < |r| ==>
              r[k].student == seats[k].student && r[k].assignedAt == seats[k].assignedAt
              && (r[k].status == Empty <==> seats[k].status == Empty)
    ensures forall k :: 0 <= k < |r| && seats[k].classroom == c && seats[k].status == Speaking ==>
              r[k] == seats[k].(status := Occupied)
    ensures forall k :: 0 <= k < |r| && (seats[k].classroom != c || seats[k].status != Speaking) ==> r[k] == seats[k]
  {
    seq(|seats|, k requires 0 <= k < |seats| =>
      if seats[k].classroom == c && seats[k].status == Speaking then seats[k].(status := Occupied) else seats[k])
  }

  /** Which seat a `raise_hand` request acts on, or the error response. */
  datatype Lookup = Found(pos: nat) | Missing(failure: Failure)

  /**
   * Without a seat id the user's first seat in any classroom; with one, that seat,
   * which must exist (an unknown id gives 400: the 404 is raised inside the handler's
   * `try` and caught by its generic `except`) and be the user's (else 403).
   */
  function HandSeat(seats: seq<Seat>, user: UserId, seatId: Option<nat>): (l: Lookup)
    ensures l.Found? ==> l.pos < |seats| && seats[l.pos].student == Some(user)
    ensures seatId.Some? && l.Found? ==> l.pos == seatId.value
    ensures seatId.Some? && seatId.value < |seats| && seats[seatId.value].student == Some(user) ==> l.Found?
    ensures seatId.None? ==> (l.Found? <==> exists k :: 0 <= k < |seats| && seats[k].student == Some(user))
    ensures seatId.None? && l.Found? ==> forall k :: 0 <= k < l.pos ==> seats[k].student != Some(user)
    ensures l.Missing? ==> (l.failure == Forbidden <==> seatId.Some? && seatId.value < |seats|)
    ensures l.Missing? ==> l.failure == Forbidden || l.failure == BadRequest
  {
    match seatId
    case None =>
      var p := (k: nat) => k < |seats| && seats[k].student == Some(user);
      assert forall k :: 0 <= k < |seats| ==> p(k) == (seats[k].student == Some(user));
      var first := First(|seats|, p);
      if first.Some? then Found(first.value) else Missing(BadRequest)
    case Some(id) =>
      if id >= |seats| then Missing(BadRequest)
      else if seats[id].student != Some(user) then Missing(Forbidden)
      else Found(id)
  }

  /** The resolution reads only who sits where. */
  lemma HandSeatReadsOnlyStudents(a: seq<Seat>, b: seq<Seat>, user: UserId, seatId: Option<nat>)
    requires |a| == |b| && forall k :: 0 <= k < |a| ==> a[k].student == b[k].student
    ensures HandSeat(a, user, seatId) == HandSeat(b, user, seatId)
  {
    var la, lb := HandSeat(a, user, seatId), HandSeat(b, user, seatId);
    if seatId.None? && la.Found? && lb.Found? {
      // both are the first seat of the user
      assert b[la.pos].student == Some(user) && a[lb.pos].student == Some(user);
    }
  }

  /** `HandRaise.objects.filter(seat=s, lowered_at__isnull=True).first()`. */
  function ActiveRaise(hands: seq<HandRaise>, s: nat): (r: Option<nat>)
    ensures r.Some? ==> r.value < |hands| && hands[r.value].seat == s && hands[r.value].loweredAt.None?
    ensures r.None? <==> forall k :: 0 <= k < |hands| && hands[k].seat == s ==> hands[k].loweredAt.Some?
  {
    var p := (k: nat) => k < |hands| && hands[k].seat == s && hands[k].loweredAt.None?;
    assert forall k :: 0 <= k < |hands| ==> p(k) == (hands[k].seat == s && hands[k].loweredAt.None?);
    First(|hands|, p)
  }

  function KindOf(s: string): Option<ContentKind> {
    if s == "screenshot" then Some(Screenshot)
    else if s == "document" then Some(Document)
    else if s == "link" then Some(Link)
    else None
  }

  /** The validated upload: the row to create, or the error response. */
  datatype Checked =
    | Accepted(kind: ContentKind, file: Option<FileRef>, link: string, description: string)
    | Rejected(failure: Failure)

  /** The validation chain of `upload_content`, ending in the row it creates. */
  function CheckUpload(u: Upload): (c: Checked)
    ensures c.Rejected? ==> c.failure == BadRequest
    // every error path
    ensures !(u.Multipart? || u.JsonUpload?) ==> c.Rejected?
    ensures (u.Multipart? || u.JsonUpload?) && KindOf(u.contentType).None? ==> c.Rejected?
    ensures (u.Multipart? || u.JsonUpload?) && u.contentType == "link" && u.link == "" ==> c.Rejected?
    ensures u.Multipart? && u.contentType != "link" && u.file.None? ==> c.Rejected?
    ensures u.JsonUpload? && u.link == "" ==> c.Rejected?
    // and nothing else is refused
    ensures (u.Multipart? && KindOf(u.contentType).Some? && (u.contentType == "link" ==> u.link != "")
             && (u.contentType != "link" ==> u.file.Some?)) ==> c.Accepted?
    ensures u.JsonUpload? && KindOf(u.contentType).Some? && u.link != "" ==> c.Accepted?
    // what is stored
    ensures c.Accepted? ==> c.kind != Code && c.kind != Notes && c.description == u.description
    ensures c.Accepted? && c.file.Some? ==>
              u.Multipart? && c.file == u.file && Some(c.kind) == KindOf(u.contentType) && c.link == ""
    ensures c.Accepted? && c.file.None? ==> c.kind == Link && c.link == u.link && c.link != ""
    // a file, when one is sent, wins over a link
    ensures u.Multipart? && u.file.Some? && c.Accepted? ==> c.file == u.file && c.link == ""
  {
    match u
    case OtherMediaType => Rejected(BadRequest)
    case MalformedJson => Rejected(BadRequest)
    case Multipart(file, contentType, description, link) => Validate(file, contentType, description, link, true)
    case JsonUpload(contentType, description, link) => Validate(None, contentType, description, link, false)
  }

  /** The checks after the body is read, then the choice between the file and the link branch. */
  function Validate(file: Option<FileRef>, contentType: string, description: string, link: string, multipart: bool): Checked {
    if contentType == "" then Rejected(BadRequest)
    else if KindOf(contentType).None? then Rejected(BadRequest)
    else if contentType == "link" && link == "" then Rejected(BadRequest)
    else if contentType != "link" && file.None? && multipart then Rejected(BadRequest)
    else if file.Some? then Accepted(KindOf(contentType).value, file, "", description)
    else if link != "" then Accepted(Link, None, link, description)
    else Rejected(BadRequest)
  }

  predicate IsCandidate(seats: seq<Seat>, c: nat, requested: seq<nat>, k: nat) {
    && k < |seats|
    && seats[k].classroom == c
    && (seats[k].status == Occupied || seats[k].status == Speaking)
    && (requested == [] || k in requested)
  }

  /** The seats of an update round: the requested ones (all, if none requested) that are occupied or speaking. */
  function Candidates(seats: seq<Seat>, c: nat, requested: seq<nat>): (r: seq<nat>)
    ensures forall k: nat :: k in r <==> IsCandidate(seats, c, requested, k)
    ensures Increasing(r)
  {
    Where(|seats|, (k: nat) => IsCandidate(seats, c, requested, k))
  }

  function OpenTurn(round: nat, seat: nat, now: Time): UpdateTurn {
    UpdateTurn(round, seat, now, None)
  }

  /** The turns the `for seat in occupied_seats` loop creates: one per seat other than `first`. */
  function OtherTurns(round: nat, seatIds: seq<nat>, first: nat, now: Time): seq<UpdateTurn> {
    if seatIds == [] then []
    else
      var last := seatIds[|seatIds| - 1];
      OtherTurns(round, seatIds[..|seatIds| - 1], first, now) + (if last != first then [OpenTurn(round, last, now)] else [])
  }

  /** All turns a new round gets: the chosen seat's first, then the others in table order. */
  function RoundTurns(round: nat, seatIds: seq<nat>, first: nat, now: Time): seq<UpdateTurn> {
    [OpenTurn(round, first, now)] + OtherTurns(round, seatIds, first, now)
  }

  predicate HasTurnFor(ts: seq<UpdateTurn>, seat: nat) {
    exists j :: 0 <= j < |ts| && ts[j].seat == seat
  }

  predicate Distinct(s: seq<nat>) {
    forall i, j :: 0 <= i < j < |s| ==> s[i] != s[j]
  }

  predicate OpenTurnsOf(o: seq<UpdateTurn>, round: nat, s: seq<nat>, first: nat, now: Time) {
    forall j :: 0 <= j < |o| ==> o[j] == OpenTurn(round, o[j].seat, now) && o[j].seat in s && o[j].seat != first
  }

  /** Every turn the loop creates is an open turn of the round for a listed seat other than `first`. */
  lemma {:induction false} OtherTurnsElements(round: nat, s: seq<nat>, first: nat, now: Time)
    ensures OpenTurnsOf(OtherTurns(round, s, first, now), round, s, first, now)
  {
    if s != [] {
      var init, last := s[..|s| - 1], s[|s| - 1];
      assert s == init + [last];
      OtherTurnsElements(round, init, first, now);
      var prev := OtherTurns(round, init, first, now);
      var o := OtherTurns(round, s, first, now);
      assert o == prev + (if last != first then [OpenTurn(round, last, now)] else []);
      forall j | 0 <= j < |o|
        ensures o[j] == OpenTurn(round, o[j].seat, now) && o[j].seat in s && o[j].seat != first
      {
        if j < |prev| {
          assert o[j] == prev[j] && prev[j].seat in init;
        }
      }
    }
  }

  /** Every listed seat other than `first` gets a turn. */
  lemma {:induction false} OtherTurnsCover(round: nat, s: seq<nat>, first: nat, now: Time)
    ensures forall x :: x in s && x != first ==> HasTurnFor(OtherTurns(round, s, first, now), x)
  {
    if s != [] {
      var init, last := s[..|s| - 1], s[|s| - 1];
      assert s == init + [last];
      OtherTurnsCover(round, init, first, now);
      var prev := OtherTurns(round, init, first, now);
      var o := OtherTurns(round, s, first, now);
      forall x | x in s && x != first ensures HasTurnFor(o, x) {
        if x == last {
          assert o[|o| - 1].seat == x;
        } else {
          assert x in init;
          var j :| 0 <= j < |prev| && prev[j].seat == x;
          assert o[j] == prev[j];
        }
      }
    }
  }

  /** Distinct seats give turns for distinct seats, one fewer when `first` is listed. */
  lemma {:induction false} OtherTurnsDistinct(round: nat, s: seq<nat>, first: nat, now: Time)
    requires Distinct(s)
    ensures var o := OtherTurns(round, s, first, now);
      && |o| == (if first in s then |s| - 1 else |s|)
      && forall i, j :: 0 <= i < j < |o| ==> o[i].seat != o[j].seat
  {
    if s != [] {
      var init, last := s[..|s| - 1], s[|s| - 1];
      assert s == init + [last];
      OtherTurnsDistinct(round, init, first, now);
      OtherTurnsElements(round, init, first, now);
      assert last !in init;
      assert first in s <==> first in init || first == last;
    }
  }

  /** A started round has exactly one open turn per candidate seat, the chosen seat's first. */
  lemma RoundTurnsCoverCandidates(round: nat, cands: seq<nat>, first: nat, now: Time)
    requires Distinct(cands) && first in cands
    ensures var t := RoundTurns(round, cands, first, now);
      && |t| == |cands|
      && t[0].seat == first
      && (forall j :: 0 <= j < |t| ==> t[j].round == round && t[j].endedAt.None? && t[j].seat in cands)
      && (forall x :: x in cands ==> HasTurnFor(t, x))
      && (forall i, j :: 0 <= i < j < |t| ==> t[i].seat != t[j].seat)
  {
    OtherTurnsElements(round, cands, first, now);
    OtherTurnsCover(round, cands, first, now);
    OtherTurnsDistinct(round, cands, first, now);
    var o := OtherTurns(round, cands, first, now);
    var t := RoundTurns(round, cands, first, now);
    assert forall j :: 0 <= j < |o| ==> t[j + 1] == o[j];
    forall x | x in cands ensures HasTurnFor(t, x) {
      if x != first {
        var j :| 0 <= j < |o| && o[j].seat == x;
        assert t[j + 1].seat == x;
      } else {
        assert t[0].seat == x;
      }
    }
  }

  predicate HasTurn(turns: seq<UpdateTurn>, round: nat, seat: nat) {
    exists j :: 0 <= j < |turns| && turns[j].round == round && turns[j].seat == seat
  }

  predicate IsRemaining(seats: seq<Seat>, turns: seq<UpdateTurn>, round: nat, teacher: Option<UserId>, c: nat, k: nat) {
    && k < |seats|
    && seats[k].classroom == c
    && seats[k].student.Some?
    && seats[k].student != teacher
    && !HasTurn(turns, round, k)
  }

  /** Seated non-teacher seats of the classroom that have no turn in this round yet. */
  function Remaining(seats: seq<Seat>, turns: seq<UpdateTurn>, round: nat, teacher: Option<UserId>, c: nat): (r: seq<nat>)
    ensures forall k: nat :: k in r <==> IsRemaining(seats, turns, round, teacher, c, k)
    ensures Increasing(r)
  {
    Where(|seats|, (k: nat) => IsRemaining(seats, turns, round, teacher, c, k))
  }

  /**
   * Only whether a seat has a turn counts, not whether that turn has ended: once every
   * seated non-teacher seat of the classroom has a turn in the round, open or ended, no
   * seat remains. `RoundCompletesWithOpenTurns` shows a round that reaches this state.
   */
  lemma CompletionIgnoresOpenTurns(seats: seq<Seat>, turns: seq<UpdateTurn>, round: nat, teacher: Option<UserId>, c: nat)
    requires forall k :: 0 <= k < |seats| && seats[k].classroom == c && seats[k].student.Some? && seats[k].student != teacher
               ==> HasTurn(turns, round, k)
    ensures Remaining(seats, turns, round, teacher, c) == []
  {
    WhereNone(|seats|, (k: nat) => IsRemaining(seats, turns, round, teacher, c, k));
  }

  /** A hand raise the queue lists: still up, in this classroom, on a seat that has a student. */
  predicate Queued(seats: seq<Seat>, hands: seq<HandRaise>, c: nat, h: nat) {
    && h < |hands|
    && hands[h].loweredAt.None?
    && hands[h].seat < |seats|
    && seats[hands[h].seat].classroom == c
    && seats[hands[h].seat].student.Some?
  }

  /** A queue entry shows a queued raise with its seat, that seat's student and the raise time. */
  predicate Lists(seats: seq<Seat>, hands: seq<HandRaise>, c: nat, e: QueueEntry) {
    && Queued(seats, hands, c, e.hand)
    && e.seat == hands[e.hand].seat
    && seats[e.seat].student == Some(e.student)
    && e.raisedAt == hands[e.hand].raisedAt
  }

  predicate AllActive(seats: seq<Seat>, hands: seq<HandRaise>, c: nat, active: seq<nat>) {
    forall k :: 0 <= k < |active| ==> ActiveIn(seats, hands, c, active[k])
  }

  /** The queue built from the active raises `active`, in their order. */
  function QueueOf(seats: seq<Seat>, hands: seq<HandRaise>, c: nat, active: seq<nat>): seq<QueueEntry>
    requires AllActive(seats, hands, c, active)
  {
    if active == [] then []
    else
      var h := active[|active| - 1];
      var seat := seats[hands[h].seat];
      QueueOf(seats, hands, c, active[..|active| - 1])
        + (if seat.student.Some? then [QueueEntry(h, seat.student.value, hands[h].seat, hands[h].raisedAt)] else [])
  }

  function HandsOf(q: seq<QueueEntry>): (r: seq<nat>)
    ensures |r| == |q| && forall j :: 0 <= j < |q| ==> r[j] == q[j].hand
  {
    seq(|q|, j requires 0 <= j < |q| => q[j].hand)
  }

  /** The queue lists exactly the queued raises among `active`, each with its seat and student, in order. */
  lemma {:induction false} QueueOfLists(seats: seq<Seat>, hands: seq<HandRaise>, c: nat, active: seq<nat>)
    requires AllActive(seats, hands, c, active)
    ensures var q := QueueOf(seats, hands, c, active);
      && (forall e :: e in q ==> Lists(seats, hands, c, e))
      && (forall h :: h in HandsOf(q) <==> h in active && Queued(seats, hands, c, h))
      && (Increasing(active) ==> Increasing(HandsOf(q)))
  {
    if active != [] {
      var init, h := active[..|active| - 1], active[|active| - 1];
      assert active == init + [h];
      assert AllActive(seats, hands, c, init);
      QueueOfLists(seats, hands, c, init);
      var prev := QueueOf(seats, hands, c, init);
      var q := QueueOf(seats, hands, c, active);
      assert ActiveIn(seats, hands, c, h);
      if seats[hands[h].seat].student.Some? {
        assert HandsOf(q) == HandsOf(prev) + [h];
        if Increasing(active) {
          forall j | 0 <= j < |prev| ensures prev[j].hand < h {
            assert prev[j].hand in HandsOf(prev);
            var k :| 0 <= k < |init| && init[k] == prev[j].hand;
            assert active[k] == init[k];
          }
        }
      } else {
        assert q == prev;
      }
    }
  }

  predicate ActiveIn(seats: seq<Seat>, hands: seq<HandRaise>, c: nat, h: nat) {
    h < |hands| && hands[h].loweredAt.None? && hands[h].seat < |seats| && seats[hands[h].seat].classroom == c
  }

  // ---------------------------------------------------------------------------
  // The store

  class Store {
    var classrooms: seq<Classroom>
    var seats: seq<Seat>
    var hands: seq<HandRaise>
    var rounds: seq<UpdateRound>
    var turns: seq<UpdateTurn>
    var contents: seq<SharedContent>

    ghost predicate Valid()
      reads this
    {
      StoreValid(classrooms, seats, hands, rounds, turns, contents)
    }

    constructor ()
      ensures Valid()
      ensures classrooms == [] && seats == [] && hands == [] && rounds == [] && turns == [] && contents == []
    {
      classrooms, seats, hands := [], [], [];
      rounds, turns, contents := [], [], [];
      new;
      EmptyStoreValid(classrooms, seats, hands, rounds, turns, contents);
    }

    /**
     * `virtual_classroom`, up to the page it renders: after the access check, get the
     * session's classroom or create it together with one empty seat per grid cell.
     */
    method EnterClassroom(dir: Directory, user: UserId, session: nat, defaultRows: nat, defaultColumns: nat)
      returns (r: Response)
      requires Valid()
      modifies this`classrooms, this`seats
      ensures r.Status() in {200, 302, 404}
      ensures Valid()
      ensures session !in dir.sessions ==>
                r == Fail(NotFound) && classrooms == old(classrooms) && seats == old(seats)
      ensures session in dir.sessions && !ViewAccess(dir, session, user) ==>
                r == Fail(Redirect) && classrooms == old(classrooms) && seats == old(seats)
      ensures ViewAccess(dir, session, user) && ClassroomOf(old(classrooms), session).Some? ==>
                r == Ok(Entered(ClassroomOf(old(classrooms), session).value, false))
                && classrooms == old(classrooms) && seats == old(seats)
      ensures ViewAccess(dir, session, user) && ClassroomOf(old(classrooms), session).None? ==>
                && r == Ok(Entered(|old(classrooms)|, true))
                && classrooms == old(classrooms) + [Classroom(session, defaultRows, defaultColumns)]
                && seats == old(seats) + Grid(|old(classrooms)|, defaultRows, defaultColumns)
                && IsGridOf(seats[|old(seats)|..], |old(classrooms)|, defaultRows, defaultColumns)
    {
      if session !in dir.sessions {
        return Fail(NotFound);
      }
      if !ViewAccess(dir, session, user) {
        return Fail(Redirect);
      }
      var existing := ClassroomOf(classrooms, session);
      if existing.Some? {
        return Ok(Entered(existing.value, false));
      }
      var c := CreateClassroom(session, defaultRows, defaultColumns);
      r := Ok(Entered(c, true));
    }

    /** The `get_or_create` create branch: the classroom row, then its grid of empty seats. */
    method CreateClassroom(session: nat, rows: nat, columns: nat) returns (c: nat)
      requires Valid() && ClassroomOf(classrooms, session).None?
      modifies this`classrooms, this`seats
      ensures Valid()
      ensures c == |old(classrooms)|
      ensures classrooms == old(classrooms) + [Classroom(session, rows, columns)]
      ensures seats == old(seats) + Grid(c, rows, columns)
      ensures IsGridOf(seats[|old(seats)|..], c, rows, columns)
    {
      c := |classrooms|;
      AppendGridKeepsLayout(classrooms, seats, session, rows, columns);
      classrooms := classrooms + [Classroom(session, rows, columns)];
      ghost var before := seats;
      AppendGrid(c, rows, columns);
      GridCoversEachCellOnce(c, rows, columns);
      assert seats[|before|..] == Grid(c, rows, columns);
      GridKeepsStore(before, Grid(c, rows, columns));
    }

    /** The nested `for row` / `for col` loop creating one empty seat per cell. */
    method AppendGrid(c: nat, rows: nat, columns: nat)
      modifies this`seats
      ensures seats == old(seats) + Grid(c, rows, columns)
    {
      var row := 0;
      while row < rows
        invariant 0 <= row <= rows
        invariant seats == old(seats) + Grid(c, row, columns)
      {
        var col := 0;
        while col < columns
          invariant 0 <= col <= columns
          invariant seats == old(seats) + Grid(c, row, columns) + RowSeats(c, row, col)
        {
          seats := seats + [EmptySeat(c, row, col)];
          col := col + 1;
        }
        row := row + 1;
      }
    }

    /** The other tables stay valid when a new classroom's grid is appended. */
    lemma GridKeepsStore(before: seq<Seat>, g: seq<Seat>)
      requires |classrooms| > 0 && seats == before + g
      requires StoreValid(classrooms[..|classrooms| - 1], before, hands, rounds, turns, contents)
      requires forall i :: 0 <= i < |g| ==> SeatConsistent(g[i]) && g[i].student.None? && g[i].status == Empty
      requires forall i :: 0 <= i < |g| ==> g[i].classroom == |classrooms| - 1
      requires LayoutValid(classrooms, seats)
      ensures Valid()
    {
      var prev := classrooms[..|classrooms| - 1];
      assert forall i :: 0 <= i < |before| ==> seats[i] == before[i];
      assert forall i :: 0 <= i < |g| ==> seats[|before| + i] == g[i];
      forall i | 0 <= i < |seats| ensures SeatConsistent(seats[i]) {
        if i >= |before| { assert seats[i] == g[i - |before|]; }
      }
      forall i, j | 0 <= i < j < |seats| && seats[i].classroom == seats[j].classroom && seats[i].student.Some?
        ensures seats[i].student != seats[j].student
      {
        if j >= |before| { assert seats[j] == g[j - |before|]; }
      }
      forall i, j | 0 <= i < j < |seats| && seats[i].classroom == seats[j].classroom && seats[i].status == Speaking
        ensures seats[j].status != Speaking
      {
        if j >= |before| { assert seats[j] == g[j - |before|]; }
      }
      forall i | 0 <= i < |rounds| ensures rounds[i].classroom < |classrooms| {
        assert rounds[i].classroom < |prev|;
      }
    }

    /** The bulk release of the user's seats in classroom `c`, row by row. */
    method ReleaseSeatsOf(user: UserId, c: nat)
      modifies this`seats
      ensures seats == ReleaseAll(old(seats), user, c)
    {
      var i := 0;
      while i < |seats|
        invariant 0 <= i <= |seats|
        invariant |seats| == |old(seats)|
        invariant forall k :: 0 <= k < i ==> seats[k] == ReleaseAll(old(seats), user, c)[k]
        invariant forall k :: i <= k < |seats| ==> seats[k] == old(seats)[k]
      {
        if HeldBy(seats[i], user, c) {
          seats := seats[i := Release(seats[i])];
        }
        i := i + 1;
      }
      assert seats == ReleaseAll(old(seats), user, c);
    }

    /** The bulk revert of classroom `c`'s speaking seats to occupied, row by row. */
    method RevertSpeakers(c: nat)
      modifies this`seats
      ensures seats == Reverted(old(seats), c)
    {
      var i := 0;
      while i < |seats|
        invariant 0 <= i <= |seats|
        invariant |seats| == |old(seats)|
        invariant forall k :: 0 <= k < i ==> seats[k] == Reverted(old(seats), c)[k]
        invariant forall k :: i <= k < |seats| ==> seats[k] == old(seats)[k]
      {
        if seats[i].classroom == c && seats[i].status == Speaking {
          seats := seats[i := seats[i].(status := Occupied)];
        }
        i := i + 1;
      }
      assert seats == Reverted(old(seats), c);
    }

    /**
     * `select_seat`: release every seat the user holds in the classroom, then claim the
     * target. The release is kept even when the claim answers 404 or 409.
     */
    method SelectSeat(dir: Directory, user: UserId, classroomId: nat, body: Body<Option<nat>>, now: Time)
      returns (r: Response)
      requires Valid()
      modifies this`seats
      ensures r.Status() in {200, 400, 403, 404, 409}
      ensures Valid()
      ensures classroomId >= |classrooms| ==> r == Fail(NotFound) && seats == old(seats)
      ensures classroomId < |classrooms| && !ViewAccess(dir, classrooms[classroomId].session, user) ==>
                r == Fail(Forbidden) && seats == old(seats)
      ensures classroomId < |classrooms| && ViewAccess(dir, classrooms[classroomId].session, user)
              && (body.InvalidJson? || body.value.None?) ==>
                r == Fail(BadRequest) && seats == old(seats)
      ensures classroomId < |classrooms| && ViewAccess(dir, classrooms[classroomId].session, user)
              && body.Parsed? && body.value.Some? ==>
                var t := body.value.value;
                var released := ReleaseAll(old(seats), user, classroomId);
                if t >= |released| || released[t].classroom != classroomId then
                  r == Fail(NotFound) && seats == released
                else if released[t].student.Some? then
                  r == Fail(Conflict) && seats == released
                else
                  r == Ok(SeatSelected(t)) && seats == released[t := Claim(released[t], user, now)]
      // a successful selection leaves the user in exactly this seat of the classroom
      ensures r.Ok? ==> r.action.SeatSelected? && r.action.seat < |seats|
                        && seats[r.action.seat].student == Some(user)
                        && seats[r.action.seat].status == Occupied
                        && seats[r.action.seat].assignedAt == Some(now)
      ensures r.Ok? ==> forall k :: 0 <= k < |seats| && HeldBy(seats[k], user, classroomId) <==> k == r.action.seat
      // a taken seat keeps its occupant
      ensures r == Fail(Conflict) ==>
                var t := body.value.value;
                t < |seats| && seats[t] == old(seats)[t] && old(seats)[t].student.Some?
                && old(seats)[t].student != Some(user)
    {
      if classroomId >= |classrooms| {
        return Fail(NotFound);
      }
      if !ViewAccess(dir, classrooms[classroomId].session, user) {
        return Fail(Forbidden);
      }
      if body.InvalidJson? || body.value.None? {
        return Fail(BadRequest);
      }
      var t := body.value.value;
      ghost var before := seats;
      ReleaseSeatsOf(user, classroomId);
      ReleaseKeepsValid(before, user, classroomId);
      if t >= |seats| || seats[t].classroom != classroomId {
        return Fail(NotFound);
      }
      if seats[t].student.Some? {
        return Fail(Conflict);
      }
      ClaimKeepsValid(t, user, now);
      seats := seats[t := Claim(seats[t], user, now)];
      r := Ok(SeatSelected(t));
    }

    lemma ReleaseKeepsValid(before: seq<Seat>, user: UserId, c: nat)
      requires StoreValid(classrooms, before, hands, rounds, turns, contents)
      requires seats == ReleaseAll(before, user, c)
      ensures Valid()
    {
      SamePlacesKeepLayout(classrooms, before, seats);
      SamePlacesKeepReferences(classrooms, before, seats, hands, rounds, turns, contents);
    }

    lemma ClaimKeepsValid(t: nat, user: UserId, now: Time)
      requires Valid()
      requires t < |seats| && seats[t].student.None?
      requires forall k :: 0 <= k < |seats| ==> !HeldBy(seats[k], user, seats[t].classroom)
      ensures StoreValid(classrooms, seats[t := Claim(seats[t], user, now)], hands, rounds, turns, contents)
    {
      var after := seats[t := Claim(seats[t], user, now)];
      SamePlacesKeepLayout(classrooms, seats, after);
      SamePlacesKeepReferences(classrooms, seats, after, hands, rounds, turns, contents);
    }

    /**
     * `raise_hand`: a toggle. An active raise and `raised=false` lowers it; no active
     * raise and `raised=true` creates one; anything else changes nothing.
     */
    method RaiseHand(user: UserId, body: Body<HandRequest>, now: Time) returns (r: Response)
      requires Valid()
      modifies this`seats, this`hands
      ensures r.Status() in {200, 400, 403}
      ensures Valid()
      ensures body.InvalidJson? ==> r == Fail(BadRequest) && seats == old(seats) && hands == old(hands)
      ensures body.Parsed? && HandSeat(old(seats), user, body.value.seatId).Missing? ==>
                r == Fail(HandSeat(old(seats), user, body.value.seatId).failure)
                && seats == old(seats) && hands == old(hands)
      ensures body.Parsed? && HandSeat(old(seats), user, body.value.seatId).Found? ==>
                var s := HandSeat(old(seats), user, body.value.seatId).pos;
                var active := ActiveRaise(old(hands), s);
                var up := body.value.raised;
                && (if active.Some? && !up then
                      && r == Ok(Lowered)
                      && hands == old(hands)[active.value := old(hands)[active.value].(loweredAt := Some(now))]
                      && seats == old(seats)[s := old(seats)[s].(status := Occupied)]
                    else if active.None? && up then
                      && r == Ok(Raised)
                      && hands == old(hands) + [HandRaise(s, now, false, None)]
                      && seats == old(seats)[s := old(seats)[s].(status := HandRaised)]
                    else
                      r == Ok(Unchanged) && seats == old(seats) && hands == old(hands))
                // afterwards the hand is up exactly when it was asked to be
                && (ActiveRaise(hands, s).Some? <==> up)
      // a hand raise never moves a student
      ensures |seats| == |old(seats)| && forall k :: 0 <= k < |seats| ==> seats[k].student == old(seats)[k].student
    {
      if body.InvalidJson? {
        return Fail(BadRequest);
      }
      var lookup := HandSeat(seats, user, body.value.seatId);
      if lookup.Missing? {
        return Fail(lookup.failure);
      }
      var s := lookup.pos;
      var up := body.value.raised;
      var active := ActiveRaise(hands, s);
      if active.Some? && !up {
        Lower(s, active.value, now);
        r := Ok(Lowered);
      } else if active.None? && up {
        Raise(s, now);
        r := Ok(Raised);
      } else {
        r := Ok(Unchanged);
      }
    }

    /** Lowering: the raise gets its lowered time and the seat goes back to occupied. */
    method Lower(s: nat, a: nat, now: Time)
      requires Valid()
      requires s < |seats| && seats[s].student.Some?
      requires a < |hands| && hands[a].seat == s && hands[a].loweredAt.None?
      modifies this`seats, this`hands
      ensures Valid()
      ensures hands == old(hands)[a := old(hands)[a].(loweredAt := Some(now))]
      ensures seats == old(seats)[s := old(seats)[s].(status := Occupied)]
      ensures ActiveRaise(hands, s).None?
    {
      LowerKeepsValid(s, a, now);
      hands := hands[a := hands[a].(loweredAt := Some(now))];
      seats := seats[s := seats[s].(status := Occupied)];
    }

    /** Raising: a new active raise for the seat, which shows a raised hand. */
    method Raise(s: nat, now: Time)
      requires Valid()
      requires s < |seats| && seats[s].student.Some?
      requires ActiveRaise(hands, s).None?
      modifies this`seats, this`hands
      ensures Valid()
      ensures hands == old(hands) + [HandRaise(s, now, false, None)]
      ensures seats == old(seats)[s := old(seats)[s].(status := HandRaised)]
      ensures ActiveRaise(hands, s).Some?
    {
      RaiseKeepsValid(s, now);
      hands := hands + [HandRaise(s, now, false, None)];
      seats := seats[s := seats[s].(status := HandRaised)];
    }

    lemma LowerKeepsValid(s: nat, a: nat, now: Time)
      requires Valid()
      requires s < |seats| && seats[s].student.Some?
      requires a < |hands| && hands[a].seat == s && hands[a].loweredAt.None?
      ensures StoreValid(classrooms, seats[s := seats[s].(status := Occupied)],
                         hands[a := hands[a].(loweredAt := Some(now))], rounds, turns, contents)
      ensures ActiveRaise(hands[a := hands[a].(loweredAt := Some(now))], s).None?
    {
      var after := seats[s := seats[s].(status := Occupied)];
      StatusChangeKeepsSeatsValid(classrooms, seats, after);
      SamePlacesKeepReferences(classrooms, seats, after, hands, rounds, turns, contents);
    }

    lemma RaiseKeepsValid(s: nat, now: Time)
      requires Valid()
      requires s < |seats| && seats[s].student.Some?
      requires ActiveRaise(hands, s).None?
      ensures StoreValid(classrooms, seats[s := seats[s].(status := HandRaised)],
                         hands + [HandRaise(s, now, false, None)], rounds, turns, contents)
      ensures ActiveRaise(hands + [HandRaise(s, now, false, None)], s).Some?
    {
      var after := seats[s := seats[s].(status := HandRaised)];
      var hs := hands + [HandRaise(s, now, false, None)];
      StatusChangeKeepsSeatsValid(classrooms, seats, after);
      SamePlacesKeepReferences(classrooms, seats, after, hands, rounds, turns, contents);
      assert hs[|hands|].seat == s && hs[|hands|].loweredAt.None?;
    }

    /**
     * `start_speaking`: the teacher calls on an active hand raise. Every speaking seat of
     * the classroom reverts to occupied, the raise is acknowledged, its seat speaks.
     * A raise whose seat has lost its student fails reading that student and the
     * transaction rolls back (HTTP 500).
     */
    method StartSpeaking(dir: Directory, user: UserId, handId: nat) returns (r: Response)
      requires Valid()
      modifies this`seats, this`hands
      ensures r.Status() in {200, 403, 404, 500}
      ensures Valid()
      ensures handId >= |old(hands)| || old(hands)[handId].loweredAt.Some? ==>
                r == Fail(NotFound) && seats == old(seats) && hands == old(hands)
      ensures handId < |old(hands)| && old(hands)[handId].loweredAt.None? ==>
                var s := old(hands)[handId].seat;
                var c := old(seats)[s].classroom;
                if !IsCourseTeacher(dir, classrooms[c].session, user) then
                  r == Fail(Forbidden) && seats == old(seats) && hands == old(hands)
                else if old(seats)[s].student.None? then
                  r == Fail(ServerError) && seats == old(seats) && hands == old(hands)
                else
                  && r == Ok(NowSpeaking(old(seats)[s].student.value, s))
                  && hands == old(hands)[handId := old(hands)[handId].(acknowledged := true)]
                  && seats == Reverted(old(seats), c)[s := Reverted(old(seats), c)[s].(status := Speaking)]
      // afterwards the called-on seat is the only speaker of its classroom
      ensures r.Ok? ==>
                var s := hands[handId].seat;
                && hands[handId].acknowledged
                && seats[s].status == Speaking
                && forall k :: 0 <= k < |seats| && k != s && seats[k].classroom == seats[s].classroom ==>
                     seats[k].status != Speaking
    {
      if handId >= |hands| || hands[handId].loweredAt.Some? {
        return Fail(NotFound);
      }
      var s := hands[handId].seat;
      var c := seats[s].classroom;
      if !IsCourseTeacher(dir, classrooms[c].session, user) {
        return Fail(Forbidden);
      }
      if seats[s].student.None? {
        return Fail(ServerError);
      }
      ghost var before := seats;
      RevertSpeakers(c);
      SpeakKeepsValid(before, s, handId);
      seats := seats[s := seats[s].(status := Speaking)];
      hands := hands[handId := hands[handId].(acknowledged := true)];
      r := Ok(NowSpeaking(seats[s].student.value, s));
    }

    lemma SpeakKeepsValid(before: seq<Seat>, s: nat, h: nat)
      requires StoreValid(classrooms, before, hands, rounds, turns, contents)
      requires s < |before| && before[s].student.Some? && h < |hands| && hands[h].seat == s
      requires seats == Reverted(before, before[s].classroom)
      ensures StoreValid(classrooms, seats[s := seats[s].(status := Speaking)],
                         hands[h := hands[h].(acknowledged := true)], rounds, turns, contents)
    {
      var after := seats[s := seats[s].(status := Speaking)];
      assert SamePlaces(before, after);
      StatusChangeKeepsSeatsValid(classrooms, before, after);
      SamePlacesKeepReferences(classrooms, before, after, hands, rounds, turns, contents);
    }

    /**
     * `upload_content`: only the seat's student may share; the request is validated by
     * `CheckUpload` and, when accepted, one SharedContent row is created.
     */
    method UploadContent(user: UserId, seatId: nat, upload: Upload, now: Time) returns (r: Response)
      requires Valid()
      modifies this`contents
      ensures r.Status() in {200, 400, 403, 404}
      ensures Valid()
      ensures seatId >= |seats| ==> r == Fail(NotFound) && contents == old(contents)
      ensures seatId < |seats| && seats[seatId].student != Some(user) ==>
                r == Fail(Forbidden) && contents == old(contents)
      ensures seatId < |seats| && seats[seatId].student == Some(user) ==>
                match CheckUpload(upload)
                case Rejected(f) => r == Fail(f) && contents == old(contents)
                case Accepted(kind, file, link, description) =>
                  && r == Ok(ContentShared(|old(contents)|, kind))
                  && contents == old(contents) + [SharedContent(seatId, kind, file, link, description, now)]
    {
      if seatId >= |seats| {
        return Fail(NotFound);
      }
      if seats[seatId].student != Some(user) {
        return Fail(Forbidden);
      }
      var checked := CheckUpload(upload);
      match checked
      case Rejected(f) =>
        r := Fail(f);
      case Accepted(kind, file, link, description) =>
        r := Ok(ContentShared(|contents|, kind));
        contents := contents + [SharedContent(seatId, kind, file, link, description, now)];
    }

    /**
     * `start_update_round`: teacher only. The round's seats are the candidates; `pick`
     * stands for `random.choice` and must be one of them. One open turn is created per
     * candidate, the picked seat's first, so every turn of the round starts open.
     */
    method StartUpdateRound(dir: Directory, user: UserId, classroomId: nat, body: Body<RoundRequest>, pick: nat, now: Time)
      returns (r: Response)
      requires Valid()
      requires classroomId < |classrooms| && body.Parsed? && Candidates(seats, classroomId, body.value.seatIds) != [] ==>
                 pick in Candidates(seats, classroomId, body.value.seatIds)
      modifies this`rounds, this`turns
      ensures r.Status() in {200, 400, 403, 404}
      ensures Valid()
      ensures classroomId >= |classrooms| ==> r == Fail(NotFound) && rounds == old(rounds) && turns == old(turns)
      ensures classroomId < |classrooms| && !IsCourseTeacher(dir, classrooms[classroomId].session, user) ==>
                r == Fail(Forbidden) && rounds == old(rounds) && turns == old(turns)
      ensures classroomId < |classrooms| && IsCourseTeacher(dir, classrooms[classroomId].session, user) ==>
                if body.InvalidJson? || Candidates(seats, classroomId, body.value.seatIds) == [] then
                  r == Fail(BadRequest) && rounds == old(rounds) && turns == old(turns)
                else
                  var cands := Candidates(seats, classroomId, body.value.seatIds);
                  && r.Ok? && r.action.RoundStarted?
                  && r.action.round == |old(rounds)| && r.action.turn == |old(turns)|
                  && seats[pick].student == Some(r.action.student)
                  && rounds == old(rounds) + [UpdateRound(classroomId, body.value.durationSeconds.GetOr(60), now, None)]
                  && turns == old(turns) + RoundTurns(|old(rounds)|, cands, pick, now)
                  // exactly one turn per candidate, all open, the picked seat's first
                  && |turns| == |old(turns)| + |cands|
                  && turns[|old(turns)|].seat == pick
                  && (forall x :: x in cands ==> HasTurnFor(turns[|old(turns)|..], x))
                  && (forall j :: |old(turns)| <= j < |turns| ==>
                        turns[j].round == |old(rounds)| && turns[j].endedAt.None? && turns[j].seat in cands)
    {
      if classroomId >= |classrooms| {
        return Fail(NotFound);
      }
      if !IsCourseTeacher(dir, classrooms[classroomId].session, user) {
        return Fail(Forbidden);
      }
      if body.InvalidJson? {
        return Fail(BadRequest);
      }
      var cands := Candidates(seats, classroomId, body.value.seatIds);
      if cands == [] {
        return Fail(BadRequest);
      }
      var rid, first := |rounds|, |turns|;
      rounds := rounds + [UpdateRound(classroomId, body.value.durationSeconds.GetOr(60), now, None)];
      AppendRoundTurns(rid, cands, pick, now);
      assert rounds[..rid] == old(rounds);
      RoundTurnsCoverCandidates(rid, cands, pick, now);
      assert turns[|old(turns)|..] == RoundTurns(rid, cands, pick, now);
      StartRoundKeepsValid(old(turns), rid, cands, pick, now);
      assert IsCandidate(seats, classroomId, body.value.seatIds, pick);
      r := Ok(RoundStarted(rid, first, seats[pick].student.value));
    }

    /** The chosen seat's turn, then the `for seat in occupied_seats` loop over the others. */
    method AppendRoundTurns(rid: nat, cands: seq<nat>, pick: nat, now: Time)
      modifies this`turns
      ensures turns == old(turns) + RoundTurns(rid, cands, pick, now)
    {
      turns := turns + [OpenTurn(rid, pick, now)];
      var i := 0;
      while i < |cands|
        invariant 0 <= i <= |cands|
        invariant turns == old(turns) + RoundTurns(rid, cands[..i], pick, now)
      {
        assert cands[..i + 1] == cands[..i] + [cands[i]];
        if cands[i] != pick {
          turns := turns + [OpenTurn(rid, cands[i], now)];
        }
        i := i + 1;
      }
      assert cands[..i] == cands;
    }

    lemma StartRoundKeepsValid(before: seq<UpdateTurn>, rid: nat, cands: seq<nat>, pick: nat, now: Time)
      requires |rounds| == rid + 1
      requires StoreValid(classrooms, seats, hands, rounds[..rid], before, contents)
      requires turns == before + RoundTurns(rid, cands, pick, now)
      requires Distinct(cands) && pick in cands
      requires forall x :: x in cands ==> x < |seats| && seats[x].classroom == rounds[rid].classroom
      requires rounds[rid].classroom < |classrooms|
      ensures Valid()
    {
      var prevRounds := rounds[..rid];
      RoundTurnsCoverCandidates(rid, cands, pick, now);
      var added := RoundTurns(rid, cands, pick, now);
      assert forall i :: 0 <= i < |before| ==> turns[i] == before[i];
      assert forall i :: 0 <= i < |added| ==> turns[|before| + i] == added[i];
      assert forall i :: 0 <= i < |before| ==> turns[i].round < rid;
      forall i | 0 <= i < |turns|
        ensures turns[i].round < |rounds| && turns[i].seat < |seats|
        ensures seats[turns[i].seat].classroom == rounds[turns[i].round].classroom
      {
        if i < |before| {
          assert rounds[before[i].round] == prevRounds[before[i].round];
        } else {
          assert turns[i] == added[i - |before|];
        }
      }
      forall i, j | 0 <= i < j < |turns| && turns[i].round == turns[j].round
        ensures turns[i].seat != turns[j].seat
      {
        if j >= |before| {
          assert turns[j] == added[j - |before|];
          if i >= |before| {
            assert turns[i] == added[i - |before|];
          }
        }
      }
    }

    /** The seats that could still get a turn once turn `t` has ended. */
    function RemainingAfter(dir: Directory, t: nat): seq<nat>
      reads this
      requires Valid() && t < |turns|
    {
      var rid := turns[t].round;
      var c := rounds[rid].classroom;
      Remaining(seats, turns, rid, TeacherOf(dir, classrooms[c].session), c)
    }

    /**
     * `end_update_turn`: the teacher or the turn's seat holder closes an open turn; a
     * seated non-teacher seat without a turn in this round gets the next one (`pick`
     * stands for `random.choice`), and when there is none the round ends.
     */
    method EndUpdateTurn(dir: Directory, user: UserId, t: nat, pick: nat, now: Time) returns (r: Response)
      requires Valid()
      requires t < |turns| && RemainingAfter(dir, t) != [] ==> pick in RemainingAfter(dir, t)
      modifies this`rounds, this`turns
      ensures r.Status() in {200, 403, 404}
      ensures Valid()
      ensures t >= |old(turns)| || old(turns)[t].endedAt.Some? ==>
                r == Fail(NotFound) && rounds == old(rounds) && turns == old(turns)
      ensures t < |old(turns)| && old(turns)[t].endedAt.None? ==>
                var turn := old(turns)[t];
                var rid := turn.round;
                var teacher := TeacherOf(dir, classrooms[old(rounds)[rid].classroom].session);
                var closed := old(turns)[t := turn.(endedAt := Some(now))];
                var remaining := old(RemainingAfter(dir, t));
                if teacher != Some(user) && seats[turn.seat].student != Some(user) then
                  r == Fail(Forbidden) && rounds == old(rounds) && turns == old(turns)
                else if remaining != [] then
                  && r.Ok? && r.action.NextTurn? && r.action.turn == |old(turns)|
                  && seats[pick].student == Some(r.action.student)
                  && turns == closed + [OpenTurn(rid, pick, now)]
                  && rounds == old(rounds)
                else
                  && r == Ok(RoundCompleted(rid))
                  && turns == closed
                  && rounds == old(rounds)[rid := old(rounds)[rid].(endedAt := Some(now))]
    {
      if t >= |turns| || turns[t].endedAt.Some? {
        return Fail(NotFound);
      }
      var turn := turns[t];
      var rid := turn.round;
      var c := rounds[rid].classroom;
      var teacher := TeacherOf(dir, classrooms[c].session);
      if teacher != Some(user) && seats[turn.seat].student != Some(user) {
        return Fail(Forbidden);
      }
      var remaining := RemainingAfter(dir, t);
      CloseTurnKeepsValid(t, now);
      turns := turns[t := turn.(endedAt := Some(now))];
      if remaining != [] {
        assert IsRemaining(seats, old(turns), rid, teacher, c, pick);
        NextTurnKeepsValid(rid, pick, now);
        r := Ok(NextTurn(|turns|, seats[pick].student.value));
        turns := turns + [OpenTurn(rid, pick, now)];
      } else {
        rounds := rounds[rid := rounds[rid].(endedAt := Some(now))];
        r := Ok(RoundCompleted(rid));
      }
    }

    lemma CloseTurnKeepsValid(t: nat, now: Time)
      requires Valid() && t < |turns|
      ensures StoreValid(classrooms, seats, hands, rounds, turns[t := turns[t].(endedAt := Some(now))], contents)
    {
    }

    lemma NextTurnKeepsValid(rid: nat, pick: nat, now: Time)
      requires Valid() && rid < |rounds|
      requires pick < |seats| && seats[pick].classroom == rounds[rid].classroom
      requires !HasTurn(turns, rid, pick)
      ensures StoreValid(classrooms, seats, hands, rounds, turns + [OpenTurn(rid, pick, now)], contents)
    {
      var after := turns + [OpenTurn(rid, pick, now)];
      forall i, j | 0 <= i < j < |after| && after[i].round == after[j].round
        ensures after[i].seat != after[j].seat
      {
        if j == |turns| {
          assert after[i] == turns[i];
        }
      }
    }

    /**
     * `raised_hands`: the queue of active hand raises of the classroom, keeping only
     * those whose seat still has a student, in table order.
     */
    method RaisedHands(dir: Directory, user: UserId, classroomId: nat) returns (r: Response)
      requires Valid()
      ensures r.Status() in {200, 403, 404}
      ensures classroomId >= |classrooms| ==> r == Fail(NotFound)
      ensures classroomId < |classrooms| && !ViewAccess(dir, classrooms[classroomId].session, user) ==>
                r == Fail(Forbidden)
      ensures classroomId < |classrooms| && ViewAccess(dir, classrooms[classroomId].session, user) ==>
                r.Ok? && r.action.Queue?
      ensures r.Ok? ==>
                var q := r.action.entries;
                && (forall e :: e in q ==> Lists(seats, hands, classroomId, e))
                && (forall h: nat :: h in HandsOf(q) <==> Queued(seats, hands, classroomId, h))
                && Increasing(HandsOf(q))
    {
      if classroomId >= |classrooms| {
        return Fail(NotFound);
      }
      if !ViewAccess(dir, classrooms[classroomId].session, user) {
        return Fail(Forbidden);
      }
      var seatsNow, handsNow := seats, hands;
      var p := (h: nat) => ActiveIn(seatsNow, handsNow, classroomId, h);
      var active := Where(|handsNow|, p);
      forall k | 0 <= k < |active| ensures ActiveIn(seats, hands, classroomId, active[k]) {
        assert active[k] in active;
      }
      var q := BuildQueue(classroomId, active);
      QueueOfLists(seats, hands, classroomId, active);
      forall h: nat | Queued(seats, hands, classroomId, h) ensures h in active {
        assert p(h);
      }
      r := Ok(Queue(q));
    }

    /** The `for hand_raise in active_hand_raises` loop: keep the raises whose seat has a student. */
    method BuildQueue(c: nat, active: seq<nat>) returns (q: seq<QueueEntry>)
      requires AllActive(seats, hands, c, active)
      ensures q == QueueOf(seats, hands, c, active)
    {
      q := [];
      var i := 0;
      while i < |active|
        invariant 0 <= i <= |active|
        invariant q == QueueOf(seats, hands, c, active[..i])
      {
        assert active[..i + 1][..i] == active[..i];
        var h := active[i];
        var seat := seats[hands[h].seat];
        if seat.student.Some? {
          q := q + [QueueEntry(h, seat.student.value, hands[h].seat, hands[h].raisedAt)];
        }
        i := i + 1;
      }
      assert active[..i] == active;
    }
  }

  /**
   * Hand-raise idempotence: repeating a `raise_hand` request that succeeded changes
   * nothing and answers "unchanged".
   */
  method RepeatedRaiseIsNoOp(store: Store, user: UserId, body: Body<HandRequest>, now: Time, later: Time)
    returns (first: Response, second: Response, ghost midSeats: seq<Seat>, ghost midHands: seq<HandRaise>)
    requires store.Valid()
    modifies store
    ensures store.Valid()
    // the second call answers "unchanged" and leaves the state the first call produced
    ensures first.Ok? ==> second == Ok(Unchanged) && store.seats == midSeats && store.hands == midHands
  {
    first := store.RaiseHand(user, body, now);
    midSeats, midHands := store.seats, store.hands;
    if first.Ok? {
      HandSeatReadsOnlyStudents(old(store.seats), store.seats, user, body.value.seatId);
      ghost var s := HandSeat(old(store.seats), user, body.value.seatId).pos;
      assert ActiveRaise(store.hands, s).Some? <==> body.value.raised;
    }
    second := store.RaiseHand(user, body, later);
  }

  /**
   * When no seated seat of the classroom has a hand up, every seated seat is a candidate,
   * so a round whose turns cover the candidates gives each of them a turn.
   */
  lemma SeatedSeatsHaveTurns(seats: seq<Seat>, turns: seq<UpdateTurn>, rid: nat, owner: Option<UserId>, c: nat, t0: nat)
    requires forall k :: 0 <= k < |seats| ==> SeatConsistent(seats[k])
    requires forall k :: 0 <= k < |seats| && seats[k].classroom == c ==> seats[k].status != HandRaised
    requires t0 <= |turns|
    requires forall x :: x in Candidates(seats, c, []) ==> HasTurnFor(turns[t0..], x)
    requires forall j :: t0 <= j < |turns| ==> turns[j].round == rid
    ensures forall k :: 0 <= k < |seats| && seats[k].classroom == c && seats[k].student.Some? && seats[k].student != owner
              ==> HasTurn(turns, rid, k)
  {
    forall k | 0 <= k < |seats| && seats[k].classroom == c && seats[k].student.Some? && seats[k].student != owner
      ensures HasTurn(turns, rid, k)
    {
      assert SeatConsistent(seats[k]);
      assert IsCandidate(seats, c, [], k);
      assert k in Candidates(seats, c, []) && HasTurnFor(turns[t0..], k);
      var j :| 0 <= j < |turns[t0..]| && turns[t0..][j].seat == k;
      assert turns[t0 + j].round == rid && turns[t0 + j].seat == k;
    }
  }

  /**
   * A round over every seated seat of a classroom (none with a hand up, so all are
   * candidates) completes as soon as its first turn ends, while the other turns it
   * opened are still open.
   */
  method RoundCompletesWithOpenTurns(store: Store, dir: Directory, teacher: UserId, c: nat, pick: nat, now: Time, later: Time)
    returns (started: Response, ended: Response)
    requires store.Valid()
    requires c < |store.classrooms| && IsCourseTeacher(dir, store.classrooms[c].session, teacher)
    requires forall k :: 0 <= k < |store.seats| && store.seats[k].classroom == c ==> store.seats[k].status != HandRaised
    requires |Candidates(store.seats, c, [])| >= 2 && pick in Candidates(store.seats, c, [])
    modifies store
    ensures store.Valid()
    ensures started.Ok? && started.action.RoundStarted?
    ensures ended == Ok(RoundCompleted(started.action.round))
    ensures started.action.round < |store.rounds| && store.rounds[started.action.round].endedAt == Some(later)
    ensures started.action.turn + 1 < |store.turns|
    ensures store.turns[started.action.turn].endedAt == Some(later)
    ensures store.turns[started.action.turn + 1].round == started.action.round
    ensures store.turns[started.action.turn + 1].endedAt.None?
  {
    started := StartRoundOverAll(store, dir, teacher, c, pick, now);
    ended := store.EndUpdateTurn(dir, teacher, started.action.turn, pick, later);
  }

  /** The first half: the round starts, and no seated seat is left without a turn. */
  method StartRoundOverAll(store: Store, dir: Directory, teacher: UserId, c: nat, pick: nat, now: Time)
    returns (started: Response)
    requires store.Valid()
    requires c < |store.classrooms| && IsCourseTeacher(dir, store.classrooms[c].session, teacher)
    requires forall k :: 0 <= k < |store.seats| && store.seats[k].classroom == c ==> store.seats[k].status != HandRaised
    requires |Candidates(store.seats, c, [])| >= 2 && pick in Candidates(store.seats, c, [])
    modifies store
    ensures store.Valid()
    ensures started.Ok? && started.action.RoundStarted?
    ensures var rid, t0 := started.action.round, started.action.turn;
      && t0 + 1 < |store.turns| && rid < |store.rounds|
      && c < |store.classrooms| && store.rounds[rid].classroom == c
      && TeacherOf(dir, store.classrooms[c].session) == Some(teacher)
      && store.turns[t0].round == rid && store.turns[t0].endedAt.None?
      && store.turns[t0 + 1].round == rid && store.turns[t0 + 1].endedAt.None?
      && store.RemainingAfter(dir, t0) == []
  {
    started := store.StartUpdateRound(dir, teacher, c, Parsed(RoundRequest(None, [])), pick, now);
    var rid, t0 := started.action.round, started.action.turn;
    ghost var owner := TeacherOf(dir, store.classrooms[c].session);
    assert forall i :: 0 <= i < |store.seats| ==> SeatConsistent(store.seats[i]);
    SeatedSeatsHaveTurns(store.seats, store.turns, rid, owner, c, t0);
    CompletionIgnoresOpenTurns(store.seats, store.turns, rid, owner, c);
  }
}
