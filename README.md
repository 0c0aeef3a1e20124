# Cinema booking data layer, modelled in Dafny

This project models the two pieces of the cinema ticket-booking data layer that hold any logic:

- **Seat booking** (`db/models.py`). A cinema hall has a grid of `rows × seats_in_row` seats and a derived `capacity`. `Ticket.clean` rejects a ticket whose row, and then whose seat, lies outside the grid of its session's hall. `Ticket.save` validates before it writes. The table enforces the unique constraint `unique_ticket_per_seat` on `(row, seat, movie_session)`. In the model, `Models.TicketTable` is that table: a class whose `tickets` sequence `Save` appends to. Its invariant `TableInvariant` says every stored ticket names a seat of its session's hall and no two tickets share a seat key. From this invariant the model proves that a session never holds more tickets than its hall's grid has seats, and so at most `capacity` when `rows` and `seats_in_row` are non-negative.
- **User service** (`services/user.py`). `create_user`, `get_user` and `update_user` work on a user store. `UserService.UserStore` is that store: a class with a `map<int, User>` and the counter that assigns ids. `update_user` overwrites a field only when the argument is a non-empty string. It re-hashes the password only when a non-empty password is given. The pure function `Merged` states this merge, and the store's `UpdateUser` method is proved equal to it.

Files: `wrappers.dfy` (Option, Result and Outcome), `models.dfy` (module `Models`, for `db/models.py`) and `user_service.dfy` (module `UserService`, for `services/user.py`).

Modelling choices:
- A ticket refers to its session by id. The ticket table holds the sessions that exist. A ticket whose session is missing fails with `SessionNotFound`, since Django's full validation rejects a dangling foreign key. The sessions, and the halls they hold by value, are fixed for the table's lifetime.
- `Clean` is a function of the ticket's value and the hall. It cannot change the ticket's row, seat or session, whether it passes or fails. Its errors carry the bound that the source's message prints (`rows` or `seats_in_row`).
- The unique constraint is consulted only after the range check passes. A failed save leaves the table unchanged.
- Hall dimensions are unbounded integers with no sign check, as in the source. `capacity` can therefore be negative (for example, −1 rows of 5 seats), while such a hall admits no ticket at all. The capacity bound is stated for halls of non-negative size, and a hall without rows or seats is shown to hold zero tickets.
- Password hashing is opaque and salted. The salt is a parameter standing for the hasher's randomness. `PasswordHash` is a symbolic term rather than a plaintext string field; the term is one-to-one and still carries the plaintext, which no part of the model reads.
- Usernames are unique in the store (the unique `username` column of Django's `AbstractUser`). Both `create_user` and the `save()` at the end of `update_user` fail with `UsernameTaken` instead of writing a duplicate. This is stated as an error path, not as a precondition.
- Nothing in `db/models.py` checks that `rows` and `seats_in_row` are positive, and `update_user` re-hashes only a non-empty password (`if password:`); the model keeps both.

## Model

| member | source | states |
|---|---|---|
| `Models.CapacityCountsSeats` | db/models.py:45-47 | `capacity` is modelled by `Models.Capacity`; for a hall with `rows ≥ 0` and `seats_in_row ≥ 0`, `capacity` equals the number of distinct (row, seat) positions numbered from 1 in the hall's grid |
| `Models.DegenerateHallHasNoSeats` | db/models.py:42-43 | a hall's seat grid is empty exactly when it has fewer than one row or fewer than one seat per row |
| `Models.Clean` | db/models.py:95-104 | `clean` passes iff (row, seat) is a position of the hall's grid, i.e. `1 ≤ row ≤ rows` and `1 ≤ seat ≤ seats_in_row`; a failure is the row error or the seat error, carrying the hall's bound |
| `Models.CleanChecksRowFirst` | db/models.py:97-104 | a row out of range is reported as the row error whatever the seat; the seat error is reported only when the row is in range |
| `Models.DegenerateHallRejectsEveryTicket` | db/models.py:42-43 | no positivity is enforced on a hall, but a hall with `rows < 1` or `seats_in_row < 1` rejects every ticket |
| `Models.Admit` | db/models.py:89-108 | a save succeeds iff the session exists, the seat is in its hall's grid and no stored ticket has the same (row, seat, movie_session); a missing session, then a range error, then a taken seat are reported in that order |
| `Models.AdmitKeepsInvariant` | db/models.py:89-108 | appending an admitted ticket keeps every stored ticket in range and every seat key unique |
| `Models.SaveAllKeepsInvariant` | db/models.py:89-108 | after any sequence of saves, starting from a consistent table, every stored ticket is in range and no two share (row, seat, movie_session) |
| `Models.LoadFitsSeats` | db/models.py:89-93 | tickets of one session with distinct seat keys, all seated within a set of positions, number at most the size of that set |
| `Models.SessionLoadWithinCapacity` | db/models.py:45-47 | on a consistent table, a session holds at most as many tickets as its hall's grid has seats: at most `capacity` for a hall of non-negative size, and none for a hall without rows or seats |
| `Models.TicketTable.constructor` | db/models.py:89-93 | an empty ticket table over the given sessions satisfies the table invariant |
| `Models.TicketTable.Save` | db/models.py:106-108 | `save` keeps the table invariant; it returns the verdict of `Admit`; it appends the ticket exactly when that verdict passes and otherwise leaves the table unchanged |
| `Models.SetPassword` | services/user.py:42-43 | `set_password` replaces the stored hash with the hash of the new password and changes no other field |
| `UserService.Merged` | services/user.py:33-44 | the merged record keeps the id of the record it was fetched as |
| `UserService.MergedFields` | services/user.py:34-43 | each of username, email, first_name and last_name becomes its argument when that is non-empty and keeps the stored value otherwise; the password becomes the hash of the given password iff a non-empty one is given, and is unchanged otherwise |
| `UserService.NoChangesIsIdentity` | services/user.py:25-41 | `update_user` with every default (`None`, `""`) leaves the record unchanged |
| `UserService.EmptyCannotClear` | services/user.py:34-41 | an empty argument cannot clear a field: a non-empty stored field stays non-empty |
| `UserService.MergeIdempotent` | services/user.py:34-41 | applying the same update twice gives the same username, email and names as applying it once, and the same record when no password is given |
| `UserService.ApplyCreate` | services/user.py:11-18 | creating fails with `UsernameTaken` iff the username is in use; otherwise the store gains exactly the new id, holding the new record, and every other record is unchanged |
| `UserService.ApplyUpdate` | services/user.py:33-44 | updating fails with `UserNotFound` iff the id is absent, and with `UsernameTaken` iff another user already holds the merged username; otherwise the store keeps its ids, the record under `user_id` becomes the merge of the stored one, and every other user is untouched |
| `UserService.CreateKeepsInvariant` | services/user.py:11-18 | inserting a new record under the next id keeps ids consistent and usernames unique |
| `UserService.UpdateKeepsInvariant` | services/user.py:33-44 | a successful update keeps ids consistent and usernames unique |
| `UserService.UserStore.constructor` | services/user.py:11-18 | an empty store, with ids assigned from 1, satisfies the store invariant |
| `UserService.UserStore.CreateUser` | services/user.py:4-18 | `create_user` stores (the record is built by `UserService.NewUser`), under the next id, a record whose username, email, first_name and last_name equal the arguments and whose password is the hash of the given one (an absent email is stored empty); a taken username changes nothing |
| `UserService.UserStore.GetUser` | services/user.py:21-22 | `get_user` returns the record stored under the id, and fails with `UserNotFound` iff the id is absent |
| `UserService.UserStore.UpdateUser` | services/user.py:25-45 | `update_user`'s field-by-field guarded writes produce exactly `ApplyUpdate`: a missing id or a taken username changes nothing; otherwise only the record under `user_id` changes, to the merged record, which is returned |

## Left out

- Movie, Actor, Genre and Order, the many-to-many relations, the `title` index and every `__str__`, including the `strftime` timestamp rendering. These are data holders and presentation, with no logic to verify.
- `Order.created_at` defaulting to the current time, and the `-created_at` ordering. Both are wall-clock time and a library sort.
- `on_delete=CASCADE` and every other ORM mechanism (managers, `models.Model`, the internals of `full_clean`). The stores are plain sequential collections.
- The existence of a ticket's order. The order is an opaque id, because orders are not modelled.
- The field validators that `full_clean` runs before `clean`, such as the database range of an `IntegerField`. Any ticket that passes `clean` lies within the hall's stored dimensions anyway.
- Re-saving a ticket that already has a primary key, which is Django's update path. `Save` models inserting a new ticket only.
- Concurrent bookings. The unique constraint's atomicity under races is a database concern. Saves are modelled one at a time.
- Password hashing internals and `check_password`. The hash is a symbolic term with a caller-supplied salt.
- Checks inside Django's user manager that these files do not show: rejecting an empty username, NFKC normalisation of the username, and stripping whitespace from the email and lower-casing its domain. Uniqueness is therefore checked on the raw username: a username equal to an existing one only after NFKC normalisation is accepted by the model but refused by the program.
- UserService.UserStore.CreateUser: does not normalise the username, so the mismatch also runs the other way. `update_user` stores a username without normalising it, so a user can be renamed to, say, the ligature "ﬁ". A later `create_user("ﬁ", …)` is normalised to "fi" and accepted by the program, while the model refuses it with `UsernameTaken`. `UserService.UserStore.CreateUser` stores the arguments as given, with an absent email stored as `""`.
- Column lengths: the `max_length` limits (150 characters for the username and the names, 254 for the email) are not modelled. Only some database backends enforce them, on both `create_user` and `update_user`.
- Sessions and halls are fixed for the ticket table's lifetime (`TicketTable.sessions` is a constant map and each session holds its hall by value): the model cannot add a session or resize a hall. In the program a hall's `rows` or `seats_in_row` can be lowered after tickets are booked, and nothing re-runs `clean` on stored tickets, so the in-range part of `TableInvariant` and the capacity bound of `SessionLoadWithinCapacity` hold only under this restriction.
- Id assignment: ids come from a counter that starts at 1; the database's own id sequence is not modelled.
