/**
 * The booking data layer of db/models.py: cinema halls and their seat grid,
 * tickets with their range check (`Ticket.clean`), the unique seat constraint
 * and the ticket table that `Ticket.save` writes to. The user record that
 * the user service manipulates is declared here too, as in the source.
 */
module Models {
  import opened Wrappers

  // ---------------------------------------------------------------------------
  // Entities
  // ---------------------------------------------------------------------------

  /** A screening room. `rows` and `seatsInRow` are plain integer columns: nothing checks their sign. */
  datatype CinemaHall = CinemaHall(name: string, rows: int, seatsInRow: int)

  /** A screening of `movie` (an id) in `hall` at `showTime` (an opaque timestamp). */
  datatype MovieSession = MovieSession(showTime: int, hall: CinemaHall, movie: int)

  /** A ticket: one seat of one session, bought within one order (both referenced by id). */
  datatype Ticket = Ticket(session: int, order: int, row: int, seat: int)

  /** The columns of the unique constraint `unique_ticket_per_seat`. */
  datatype SeatKey = SeatKey(row: int, seat: int, session: int)

  /** Why saving a ticket fails. The range errors carry the upper bound the message reports. */
  datatype BookingError =
    | SessionNotFound
    | RowOutOfRange(rows: int)
    | SeatOutOfRange(seatsInRow: int)
    | SeatTaken

  function Key(t: Ticket): SeatKey
  {
    SeatKey(t.row, t.seat, t.session)
  }

  // ---------------------------------------------------------------------------
  // CinemaHall.capacity and the seat grid it counts
  // ---------------------------------------------------------------------------

  /** The `capacity` property of a hall. */
  function Capacity(h: CinemaHall): int
  {
    h.rows * h.seatsInRow
  }

  /** Every (row, seat) position a hall offers: rows and seats are numbered from 1. */
  function SeatGrid(h: CinemaHall): set<(int, int)>
  {
    set r, s | 1 <= r <= h.rows && 1 <= s <= h.seatsInRow :: (r, s)
  }

  /** The seats of one row of a hall. */
  function RowSeats(r: int, seatsInRow: int): set<(int, int)>
  {
    set s | 1 <= s <= seatsInRow :: (r, s)
  }

  lemma {:induction false} RowSeatsCount(r: int, seatsInRow: nat)
    ensures |RowSeats(r, seatsInRow)| == seatsInRow
  {
    if seatsInRow == 0 {
      assert RowSeats(r, 0) == {};
    } else {
      RowSeatsCount(r, seatsInRow - 1);
      assert RowSeats(r, seatsInRow) == RowSeats(r, seatsInRow - 1) + {(r, seatsInRow)};
    }
  }

  /** For a hall with non-negative dimensions, `capacity` is exactly the number of seats in its grid. */
  lemma {:induction false} CapacityCountsSeats(h: CinemaHall)
    requires h.rows >= 0 && h.seatsInRow >= 0
    ensures |SeatGrid(h)| == Capacity(h)
    decreases h.rows
  {
    if h.rows == 0 {
      assert SeatGrid(h) == {};
    } else {
      var fewer := h.(rows := h.rows - 1);
      CapacityCountsSeats(fewer);
      RowSeatsCount(h.rows, h.seatsInRow);
      GridSplitsOffLastRow(h);
      var a, b := SeatGrid(fewer), RowSeats(h.rows, h.seatsInRow);
      assert a * b == {};
      assert |a + b| == |a| + |b|;
      assert |SeatGrid(h)| == Capacity(fewer) + h.seatsInRow;
      LastRowAddsOneRowOfSeats(h.rows, h.seatsInRow);
    }
  }

  lemma LastRowAddsOneRowOfSeats(rows: int, seatsInRow: int)
    ensures rows * seatsInRow == (rows - 1) * seatsInRow + seatsInRow
  {
  }

  /** The grid of a hall is the grid of the hall without its last row, plus that row. */
  lemma GridSplitsOffLastRow(h: CinemaHall)
    requires h.rows >= 1
    ensures SeatGrid(h) == SeatGrid(h.(rows := h.rows - 1)) + RowSeats(h.rows, h.seatsInRow)
    ensures SeatGrid(h.(rows := h.rows - 1)) !! RowSeats(h.rows, h.seatsInRow)
  {
  }

  /** A hall with fewer than one row or fewer than one seat per row has no seat at all. */
  lemma DegenerateHallHasNoSeats(h: CinemaHall)
    ensures SeatGrid(h) == {} <==> h.rows < 1 || h.seatsInRow < 1
  {
    if h.rows >= 1 && h.seatsInRow >= 1 {
      assert (1, 1) in SeatGrid(h);
    }
  }

  // ---------------------------------------------------------------------------
  // Ticket.clean: the range check
  // ---------------------------------------------------------------------------

  /**
   * `Ticket.clean` against the hall of the ticket's session. It only reads the
   * ticket: it passes exactly when the ticket names a seat of the hall's grid,
   * and otherwise raises the row error or the seat error.
   */
  function Clean(t: Ticket, h: CinemaHall): (r: Outcome<BookingError>)
    ensures r.Pass? <==> (t.row, t.seat) in SeatGrid(h)
    ensures r.Fail? ==> r.error == RowOutOfRange(h.rows) || r.error == SeatOutOfRange(h.seatsInRow)
  {
    if 1 > t.row || t.row > h.rows then
      Fail(RowOutOfRange(h.rows))
    else if 1 > t.seat || t.seat > h.seatsInRow then
      Fail(SeatOutOfRange(h.seatsInRow))
    else
      Pass
  }

  /**
   * The row is checked before the seat: a bad row is always reported as the row
   * error, whatever the seat; the seat error is reported only for a good row.
   */
  lemma CleanChecksRowFirst(t: Ticket, h: CinemaHall)
    ensures !(1 <= t.row <= h.rows) ==> Clean(t, h) == Fail(RowOutOfRange(h.rows))
    ensures 1 <= t.row <= h.rows && !(1 <= t.seat <= h.seatsInRow) ==> Clean(t, h) == Fail(SeatOutOfRange(h.seatsInRow))
  {
  }

  /** No positivity is enforced on a hall, but a hall without rows or seats rejects every ticket. */
  lemma DegenerateHallRejectsEveryTicket(t: Ticket, h: CinemaHall)
    requires h.rows < 1 || h.seatsInRow < 1
    ensures Clean(t, h).Fail?
  {
  }

  // ---------------------------------------------------------------------------
  // Ticket.save: validation, then the insert under the unique constraint
  // ---------------------------------------------------------------------------

  /** Some stored ticket already holds this (row, seat, movie_session) triple. */
  predicate Taken(tickets: seq<Ticket>, k: SeatKey)
  {
    exists i :: 0 <= i < |tickets| && Key(tickets[i]) == k
  }

  /** A stored ticket belongs to a known session and names a seat of that session's hall. */
  predicate Seated(sessions: map<int, MovieSession>, t: Ticket)
  {
    t.session in sessions && (t.row, t.seat) in SeatGrid(sessions[t.session].hall)
  }

  /** The ticket table's invariant: every ticket is seated and no two share a seat key. */
  predicate TableInvariant(sessions: map<int, MovieSession>, tickets: seq<Ticket>)
  {
    (forall i :: 0 <= i < |tickets| ==> Seated(sessions, tickets[i])) &&
    (forall i, j :: 0 <= i < j < |tickets| ==> Key(tickets[i]) != Key(tickets[j]))
  }

  /**
   * The verdict of saving `t` into `tickets`: the session must exist, the range
   * check must pass, and only then is the unique constraint consulted.
   */
  function Admit(sessions: map<int, MovieSession>, tickets: seq<Ticket>, t: Ticket): (r: Outcome<BookingError>)
    ensures r.Pass? <==> Seated(sessions, t) && !Taken(tickets, Key(t))
    ensures r == Fail(SessionNotFound) <==> t.session !in sessions
    ensures t.session in sessions && Clean(t, sessions[t.session].hall).Fail? ==> r == Clean(t, sessions[t.session].hall)
    ensures r == Fail(SeatTaken) <==> Seated(sessions, t) && Taken(tickets, Key(t))
  {
    if t.session !in sessions then
      Fail(SessionNotFound)
    else if Clean(t, sessions[t.session].hall).Fail? then
      Clean(t, sessions[t.session].hall)
    else if Taken(tickets, Key(t)) then
      Fail(SeatTaken)
    else
      Pass
  }

  /** Appending an admitted ticket keeps every ticket seated and every seat key unique. */
  lemma AdmitKeepsInvariant(sessions: map<int, MovieSession>, tickets: seq<Ticket>, t: Ticket)
    requires TableInvariant(sessions, tickets)
    requires Admit(sessions, tickets, t).Pass?
    ensures TableInvariant(sessions, tickets + [t])
  {
  }

  /** The tickets stored after saving each of `attempts` in turn; a rejected save stores nothing. */
  function SaveAll(sessions: map<int, MovieSession>, tickets: seq<Ticket>, attempts: seq<Ticket>): seq<Ticket>
    decreases |attempts|
  {
    if attempts == [] then
      tickets
    else
      var t := attempts[0];
      var next := if Admit(sessions, tickets, t).Pass? then tickets + [t] else tickets;
      SaveAll(sessions, next, attempts[1..])
  }

  /** After any sequence of saves, every stored ticket is in range and no two share a seat key. */
  lemma {:induction false} SaveAllKeepsInvariant(sessions: map<int, MovieSession>, tickets: seq<Ticket>, attempts: seq<Ticket>)
    requires TableInvariant(sessions, tickets)
    ensures TableInvariant(sessions, SaveAll(sessions, tickets, attempts))
    decreases |attempts|
  {
    if attempts != [] {
      var t := attempts[0];
      if Admit(sessions, tickets, t).Pass? {
        AdmitKeepsInvariant(sessions, tickets, t);
        SaveAllKeepsInvariant(sessions, tickets + [t], attempts[1..]);
      } else {
        SaveAllKeepsInvariant(sessions, tickets, attempts[1..]);
      }
    }
  }

  // ---------------------------------------------------------------------------
  // How many tickets one session can hold
  // ---------------------------------------------------------------------------

  /** The number of stored tickets for session `s`. */
  function SessionLoad(tickets: seq<Ticket>, s: int): nat
  {
    if tickets == [] then 0
    else SessionLoad(tickets[..|tickets| - 1], s) + (if tickets[|tickets| - 1].session == s then 1 else 0)
  }

  /**
   * Tickets of session `s` whose seats all lie in `free` and whose keys are
   * distinct number at most `|free|`.
   */
  lemma {:induction false} LoadFitsSeats(tickets: seq<Ticket>, s: int, free: set<(int, int)>)
    requires forall i :: 0 <= i < |tickets| && tickets[i].session == s ==> (tickets[i].row, tickets[i].seat) in free
    requires forall i, j :: 0 <= i < j < |tickets| ==> Key(tickets[i]) != Key(tickets[j])
    ensures SessionLoad(tickets, s) <= |free|
    decreases |tickets|
  {
    if tickets != [] {
      var n := |tickets| - 1;
      var prefix, last := tickets[..n], tickets[n];
      if last.session == s {
        var rest := free - {(last.row, last.seat)};
        forall i | 0 <= i < |prefix| && prefix[i].session == s
          ensures (prefix[i].row, prefix[i].seat) in rest
        {
          assert Key(tickets[i]) != Key(tickets[n]);
        }
        LoadFitsSeats(prefix, s, rest);
      } else {
        LoadFitsSeats(prefix, s, free);
      }
    }
  }

  /**
   * Range validity and seat-key uniqueness bound the tickets of a session by
   * its hall: never more than `capacity` for a hall of non-negative size, and
   * none at all for a hall without rows or seats.
   */
  lemma SessionLoadWithinCapacity(sessions: map<int, MovieSession>, tickets: seq<Ticket>, s: int)
    requires TableInvariant(sessions, tickets)
    requires s in sessions
    ensures var h := sessions[s].hall;
      SessionLoad(tickets, s) <= |SeatGrid(h)| &&
      (h.rows >= 0 && h.seatsInRow >= 0 ==> SessionLoad(tickets, s) <= Capacity(h)) &&
      (h.rows < 1 || h.seatsInRow < 1 ==> SessionLoad(tickets, s) == 0)
  {
    var h := sessions[s].hall;
    forall i | 0 <= i < |tickets| && tickets[i].session == s
      ensures (tickets[i].row, tickets[i].seat) in SeatGrid(h)
    {
      assert Seated(sessions, tickets[i]);
    }
    LoadFitsSeats(tickets, s, SeatGrid(h));
    DegenerateHallHasNoSeats(h);
    if h.rows >= 0 && h.seatsInRow >= 0 {
      CapacityCountsSeats(h);
    }
  }

  // ---------------------------------------------------------------------------
  // The ticket table
  // ---------------------------------------------------------------------------

  /**
   * The persistent ticket table, with the sessions its tickets refer to.
   * Saves are sequential; `Valid` is the unique constraint plus the range check.
   */
  class TicketTable {
    const sessions: map<int, MovieSession>
    var tickets: seq<Ticket>

    ghost predicate Valid()
      reads this
    {
      TableInvariant(sessions, tickets)
    }

    constructor (sessions: map<int, MovieSession>)
      ensures Valid()
      ensures this.sessions == sessions && tickets == []
    {
      this.sessions := sessions;
      tickets := [];
    }

    /**
     * `Ticket.save`: run the full validation (the session reference, then
     * `clean`), then insert under the unique seat constraint. A failed save
     * leaves the table as it was.
     */
    method Save(t: Ticket) returns (r: Outcome<BookingError>)
      requires Valid()
      modifies this
      ensures Valid()
      ensures r == Admit(sessions, old(tickets), t)
      ensures tickets == if r.Pass? then old(tickets) + [t] else old(tickets)
    {
      if t.session !in sessions {
        return Fail(SessionNotFound);
      }
      r := Clean(t, sessions[t.session].hall);
      if r.Fail? {
        return;
      }
      if Taken(tickets, Key(t)) {
        return Fail(SeatTaken);
      }
      AdmitKeepsInvariant(sessions, tickets, t);
      tickets := tickets + [t];
    }
  }

  // ---------------------------------------------------------------------------
  // User
  // ---------------------------------------------------------------------------

  /**
   * A stored password. The salted one-way hash is kept symbolic: the record
   * holds a hash term, not a plaintext string field. The term is one-to-one
   * and still carries the plaintext (`secret`); nothing in the model reads it.
   */
  datatype PasswordHash = Hashed(secret: string, salt: int)

  /** The user record (Django's `AbstractUser`, reduced to the fields the services touch). */
  datatype User = User(id: int, username: string, password: PasswordHash, email: string, firstName: string, lastName: string)

  /** Hashing a raw password; `salt` stands for the randomness the hasher draws. */
  function MakePassword(raw: string, salt: int): PasswordHash
  {
    Hashed(raw, salt)
  }

  /** `set_password`: replace the stored hash by the hash of `raw`, touching nothing else. */
  function SetPassword(u: User, raw: string, salt: int): (r: User)
    ensures r.password == MakePassword(raw, salt)
    ensures r.(password := u.password) == u
  {
    u.(password := MakePassword(raw, salt))
  }
}
