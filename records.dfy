/**
 * The rows of the virtual-classroom tables and the invariants the store keeps.
 * Every table is an append-only sequence; a row's id is its position in it.
 */
module Records {
  import opened Common
  import opened Query

  datatype SeatStatus = Empty | Occupied | HandRaised | Speaking

  /** A virtual classroom: one per session, with a `rows` x `columns` seat grid. */
  datatype Classroom = Classroom(session: nat, rows: nat, columns: nat)

  datatype Seat = Seat(
    classroom: nat,
    row: nat,
    column: nat,
    student: Option<UserId>,
    status: SeatStatus,
    assignedAt: Option<Time>)

  /** A request to speak; `loweredAt == None` means the hand is still up. */
  datatype HandRaise = HandRaise(seat: nat, raisedAt: Time, acknowledged: bool, loweredAt: Option<Time>)

  datatype UpdateRound = UpdateRound(classroom: nat, durationSeconds: int, startedAt: Time, endedAt: Option<Time>)

  datatype UpdateTurn = UpdateTurn(round: nat, seat: nat, startedAt: Time, endedAt: Option<Time>)

  datatype ContentKind = Screenshot | Document | Link | Code | Notes

  /** An uploaded file, as an opaque handle into the blob store. */
  type FileRef = nat

  datatype SharedContent = SharedContent(
    seat: nat,
    kind: ContentKind,
    file: Option<FileRef>,
    link: string,
    description: string,
    sharedAt: Time)

  // ---------------------------------------------------------------------------
  // The seat grid created with a classroom

  function EmptySeat(c: nat, row: nat, column: nat): Seat {
    Seat(c, row, column, None, Empty, None)
  }

  /** The seats of one row, in the order the inner `for col` loop creates them. */
  function RowSeats(c: nat, row: nat, columns: nat): seq<Seat> {
    if columns == 0 then [] else RowSeats(c, row, columns - 1) + [EmptySeat(c, row, columns - 1)]
  }

  /** All seats of a new classroom, in the order the nested `for row` / `for col` loops create them. */
  function Grid(c: nat, rows: nat, columns: nat): seq<Seat> {
    if rows == 0 then [] else Grid(c, rows - 1, columns) + RowSeats(c, rows - 1, columns)
  }

  predicate HasSeatAt(seats: seq<Seat>, c: nat, row: nat, column: nat) {
    exists i :: 0 <= i < |seats| && seats[i].classroom == c && seats[i].row == row && seats[i].column == column
  }

  /** `seats` holds exactly one empty seat of classroom `c` for each cell of a rows x columns grid. */
  ghost predicate IsGridOf(seats: seq<Seat>, c: nat, rows: nat, columns: nat) {
    && (forall i :: 0 <= i < |seats| ==>
          seats[i] == EmptySeat(c, seats[i].row, seats[i].column) && seats[i].row < rows && seats[i].column < columns)
    && (forall i, j :: 0 <= i < j < |seats| ==>
          seats[i].row != seats[j].row || seats[i].column != seats[j].column)
    && (forall r, k :: 0 <= r < rows && 0 <= k < columns ==> HasSeatAt(seats, c, r, k))
  }

  lemma {:induction false} RowSeatsAt(c: nat, row: nat, columns: nat)
    ensures |RowSeats(c, row, columns)| == columns
    ensures forall k :: 0 <= k < columns ==> RowSeats(c, row, columns)[k] == EmptySeat(c, row, k)
  {
    if columns > 0 {
      RowSeatsAt(c, row, columns - 1);
    }
  }

  /** Creating a classroom yields exactly one seat per (row, column) cell, and rows * columns seats. */
  lemma {:induction false} GridCoversEachCellOnce(c: nat, rows: nat, columns: nat)
    ensures IsGridOf(Grid(c, rows, columns), c, rows, columns)
    ensures |Grid(c, rows, columns)| == rows * columns
  {
    if rows > 0 {
      GridCoversEachCellOnce(c, rows - 1, columns);
      RowSeatsAt(c, rows - 1, columns);
      var prev, last := Grid(c, rows - 1, columns), RowSeats(c, rows - 1, columns);
      var g := Grid(c, rows, columns);
      assert g == prev + last;
      assert forall i :: |prev| <= i < |g| ==> g[i] == EmptySeat(c, rows - 1, i - |prev|);
      forall r, k | 0 <= r < rows && 0 <= k < columns
        ensures HasSeatAt(g, c, r, k)
      {
        if r < rows - 1 {
          assert HasSeatAt(prev, c, r, k);
          var i :| 0 <= i < |prev| && prev[i].classroom == c && prev[i].row == r && prev[i].column == k;
          assert g[i] == prev[i];
        } else {
          assert g[|prev| + k] == EmptySeat(c, r, k);
        }
      }
      assert |g| == (rows - 1) * columns + columns;
    }
  }

  // ---------------------------------------------------------------------------
  // The store's invariants, stated over the table values

  /** A seat's fields agree: it has a student exactly when it is not empty and has an assignment time. */
  predicate SeatConsistent(s: Seat) {
    && (s.student.Some? <==> s.status != Empty)
    && (s.student.Some? <==> s.assignedAt.Some?)
  }

  /** Each seat sits in an existing classroom's grid, no cell holds two seats, every cell has one. */
  ghost predicate LayoutValid(classrooms: seq<Classroom>, seats: seq<Seat>) {
    && (forall i :: 0 <= i < |seats| ==>
          && seats[i].classroom < |classrooms|
          && seats[i].row < classrooms[seats[i].classroom].rows
          && seats[i].column < classrooms[seats[i].classroom].columns)
    && (forall i, j :: 0 <= i < j < |seats| && seats[i].classroom == seats[j].classroom ==>
          seats[i].row != seats[j].row || seats[i].column != seats[j].column)
    && (forall c, r, k :: 0 <= c < |classrooms| && 0 <= r < classrooms[c].rows && 0 <= k < classrooms[c].columns ==>
          HasSeatAt(seats, c, r, k))
    && (forall a, b :: 0 <= a < b < |classrooms| ==> classrooms[a].session != classrooms[b].session)
  }

  /** A student holds at most one seat per classroom. */
  ghost predicate OneSeatPerStudent(seats: seq<Seat>) {
    forall i, j :: 0 <= i < j < |seats| && seats[i].classroom == seats[j].classroom && seats[i].student.Some? ==>
      seats[i].student != seats[j].student
  }

  /** At most one seat per classroom is speaking. */
  ghost predicate OneSpeaker(seats: seq<Seat>) {
    forall i, j :: 0 <= i < j < |seats| && seats[i].classroom == seats[j].classroom && seats[i].status == Speaking ==>
      seats[j].status != Speaking
  }

  /** At most one hand raise per seat is still up. */
  ghost predicate OneActiveRaise(hands: seq<HandRaise>) {
    forall i, j :: 0 <= i < j < |hands| && hands[i].seat == hands[j].seat && hands[i].loweredAt.None? ==>
      hands[j].loweredAt.Some?
  }

  /** A seat gets at most one turn per update round. */
  ghost predicate OneTurnPerSeat(turns: seq<UpdateTurn>) {
    forall i, j :: 0 <= i < j < |turns| && turns[i].round == turns[j].round ==> turns[i].seat != turns[j].seat
  }

  ghost predicate SeatsValid(classrooms: seq<Classroom>, seats: seq<Seat>) {
    && LayoutValid(classrooms, seats)
    && (forall i :: 0 <= i < |seats| ==> SeatConsistent(seats[i]))
    && OneSeatPerStudent(seats)
    && OneSpeaker(seats)
  }

  ghost predicate HandsValid(seats: seq<Seat>, hands: seq<HandRaise>) {
    && (forall i :: 0 <= i < |hands| ==> hands[i].seat < |seats|)
    && OneActiveRaise(hands)
  }

  ghost predicate RoundsValid(classrooms: seq<Classroom>, seats: seq<Seat>, rounds: seq<UpdateRound>, turns: seq<UpdateTurn>) {
    && (forall i :: 0 <= i < |rounds| ==> rounds[i].classroom < |classrooms|)
    && (forall i :: 0 <= i < |turns| ==>
          && turns[i].round < |rounds|
          && turns[i].seat < |seats|
          && seats[turns[i].seat].classroom == rounds[turns[i].round].classroom)
    && OneTurnPerSeat(turns)
  }

  ghost predicate ContentsValid(seats: seq<Seat>, contents: seq<SharedContent>) {
    forall i :: 0 <= i < |contents| ==> contents[i].seat < |seats|
  }

  /** Everything the store keeps true between requests. */
  ghost predicate StoreValid(
    classrooms: seq<Classroom>, seats: seq<Seat>, hands: seq<HandRaise>,
    rounds: seq<UpdateRound>, turns: seq<UpdateTurn>, contents: seq<SharedContent>)
  {
    && SeatsValid(classrooms, seats)
    && HandsValid(seats, hands)
    && RoundsValid(classrooms, seats, rounds, turns)
    && ContentsValid(seats, contents)
  }

  /** The empty store satisfies every invariant. */
  lemma EmptyStoreValid(
    classrooms: seq<Classroom>, seats: seq<Seat>, hands: seq<HandRaise>,
    rounds: seq<UpdateRound>, turns: seq<UpdateTurn>, contents: seq<SharedContent>)
    requires |classrooms| == |seats| == |hands| == |rounds| == |turns| == |contents| == 0
    ensures StoreValid(classrooms, seats, hands, rounds, turns, contents)
  {
  }

  // ---------------------------------------------------------------------------
  // Seat updates that keep the grid

  /** Same classroom, row and column, seat by seat: the layout is untouched. */
  predicate SamePlaces(a: seq<Seat>, b: seq<Seat>) {
    && |a| == |b|
    && forall i :: 0 <= i < |a| ==>
         a[i].classroom == b[i].classroom && a[i].row == b[i].row && a[i].column == b[i].column
  }

  lemma SamePlacesKeepLayout(classrooms: seq<Classroom>, a: seq<Seat>, b: seq<Seat>)
    requires LayoutValid(classrooms, a) && SamePlaces(a, b)
    ensures LayoutValid(classrooms, b)
  {
    forall c, r, k | 0 <= c < |classrooms| && 0 <= r < classrooms[c].rows && 0 <= k < classrooms[c].columns
      ensures HasSeatAt(b, c, r, k)
    {
      assert HasSeatAt(a, c, r, k);
      var i :| 0 <= i < |a| && a[i].classroom == c && a[i].row == r && a[i].column == k;
      assert b[i].classroom == c && b[i].row == r && b[i].column == k;
    }
  }

  /** Adding a classroom for a new session together with its grid keeps the layout valid. */
  lemma AppendGridKeepsLayout(classrooms: seq<Classroom>, seats: seq<Seat>, session: nat, rows: nat, columns: nat)
    requires LayoutValid(classrooms, seats)
    requires forall a :: 0 <= a < |classrooms| ==> classrooms[a].session != session
    ensures LayoutValid(classrooms + [Classroom(session, rows, columns)], seats + Grid(|classrooms|, rows, columns))
  {
    GridCoversEachCellOnce(|classrooms|, rows, columns);
    AppendGridPlaces(classrooms, seats, session, rows, columns);
    AppendGridCovers(classrooms, seats, session, rows, columns);
  }

  /** Each seat of the combined table lies in its classroom's grid, one seat per cell. */
  lemma AppendGridPlaces(classrooms: seq<Classroom>, seats: seq<Seat>, session: nat, rows: nat, columns: nat)
    requires LayoutValid(classrooms, seats)
    requires IsGridOf(Grid(|classrooms|, rows, columns), |classrooms|, rows, columns)
    ensures var cls, all := classrooms + [Classroom(session, rows, columns)], seats + Grid(|classrooms|, rows, columns);
      && (forall i :: 0 <= i < |all| ==>
            && all[i].classroom < |cls|
            && all[i].row < cls[all[i].classroom].rows
            && all[i].column < cls[all[i].classroom].columns)
      && (forall i, j :: 0 <= i < j < |all| && all[i].classroom == all[j].classroom ==>
            all[i].row != all[j].row || all[i].column != all[j].column)
  {
    var c := |classrooms|;
    var cls := classrooms + [Classroom(session, rows, columns)];
    var g := Grid(c, rows, columns);
    var all := seats + g;
    forall i | 0 <= i < |all|
      ensures all[i].classroom < |cls|
      ensures all[i].row < cls[all[i].classroom].rows && all[i].column < cls[all[i].classroom].columns
    {
      if i >= |seats| {
        assert all[i] == g[i - |seats|];
      } else {
        assert all[i] == seats[i];
      }
    }
    forall i, j | 0 <= i < j < |all| && all[i].classroom == all[j].classroom
      ensures all[i].row != all[j].row || all[i].column != all[j].column
    {
      if j >= |seats| {
        assert all[j] == g[j - |seats|];
        if i >= |seats| {
          assert all[i] == g[i - |seats|];
        }
      } else {
        assert all[i] == seats[i] && all[j] == seats[j];
      }
    }
  }

  /** Every cell of every classroom, old and new, has a seat in the combined table. */
  lemma AppendGridCovers(classrooms: seq<Classroom>, seats: seq<Seat>, session: nat, rows: nat, columns: nat)
    requires LayoutValid(classrooms, seats)
    requires IsGridOf(Grid(|classrooms|, rows, columns), |classrooms|, rows, columns)
    ensures var cls, all := classrooms + [Classroom(session, rows, columns)], seats + Grid(|classrooms|, rows, columns);
      forall b, r, k :: 0 <= b < |cls| && 0 <= r < cls[b].rows && 0 <= k < cls[b].columns ==> HasSeatAt(all, b, r, k)
  {
    var c := |classrooms|;
    var cls := classrooms + [Classroom(session, rows, columns)];
    var g := Grid(c, rows, columns);
    var all := seats + g;
    forall b, r, k | 0 <= b < |cls| && 0 <= r < cls[b].rows && 0 <= k < cls[b].columns
      ensures HasSeatAt(all, b, r, k)
    {
      if b < c {
        assert cls[b] == classrooms[b];
        assert HasSeatAt(seats, b, r, k);
        var i :| 0 <= i < |seats| && seats[i].classroom == b && seats[i].row == r && seats[i].column == k;
        assert all[i] == seats[i];
      } else {
        assert HasSeatAt(g, c, r, k);
        var i :| 0 <= i < |g| && g[i].classroom == c && g[i].row == r && g[i].column == k;
        assert all[|seats| + i] == g[i];
      }
    }
  }

  /** Rows that point at seats stay valid when the seats keep their places. */
  lemma SamePlacesKeepReferences(
    classrooms: seq<Classroom>, a: seq<Seat>, b: seq<Seat>, hands: seq<HandRaise>,
    rounds: seq<UpdateRound>, turns: seq<UpdateTurn>, contents: seq<SharedContent>)
    requires SamePlaces(a, b)
    requires HandsValid(a, hands) && RoundsValid(classrooms, a, rounds, turns) && ContentsValid(a, contents)
    ensures HandsValid(b, hands) && RoundsValid(classrooms, b, rounds, turns) && ContentsValid(b, contents)
  {
  }

  /**
   * A change of seat statuses alone (students and assignment times kept, emptiness kept)
   * keeps the seat invariants, provided no classroom ends up with two speakers.
   */
  lemma StatusChangeKeepsSeatsValid(classrooms: seq<Classroom>, a: seq<Seat>, b: seq<Seat>)
    requires SeatsValid(classrooms, a) && SamePlaces(a, b)
    requires forall k :: 0 <= k < |a| ==>
               b[k].student == a[k].student && b[k].assignedAt == a[k].assignedAt
               && (b[k].status == Empty <==> a[k].status == Empty)
    requires OneSpeaker(b)
    ensures SeatsValid(classrooms, b)
  {
    SamePlacesKeepLayout(classrooms, a, b);
  }
}
