# Appointment subsystem of the health-agent orchestrator, in Dafny

This project models the one part of the repository with real logic: the
appointment subsystem in `orchestrator_agent/sub_agents/appointment_agent/database.py`.
It has four parts:

- a **date normalizer** (`_parse_date`). It folds free text to lower case,
  rewrites "coming" to "next", and hands the text to a date grammar. It answers
  with a canonical `YYYY-MM-DD` date or an `Error:` message.
- a **provider directory search** (`_find_doctors_in_db`). Both filters are
  optional substring matches. Results are ranked by experience and capped at five.
- a **booking ledger**. `_book_appointment_in_db` appends one `Booked`
  appointment. `_get_appointments_for_user_db` joins a patient's appointments
  to their doctors and orders them by date and time.
- the **seeder** (`generate_and_populate_doctors`). It fills an empty doctors
  table with synthetic rows whose numbers lie in fixed ranges.

The two SQLite tables are an in-memory `Store`: a sequence of doctor rows, a
sequence of appointment rows, and the next `AUTOINCREMENT` key of each. Every
operation is a pure function of the store. `Book` returns the new store with
its answer. `Search` and `History` only read it, so by construction they cannot
change it. Answers are tagged datatypes, not JSON strings. The exception is
`_parse_date`: the booking inspects its string reply with
`startswith("Error:")`, so the model keeps that string and the booking tests it
the same way.

Two things are parameters:

- the date grammar (dateutil, read month-first): a function
  `parse: string -> Option<CalendarDate>`;
- the clock (`datetime.now().date()`): a date `today`.

The seeder's random choices arrive as one `Draw` per doctor. `DrawInRange`
states the ranges that `randint`, `choice` and `sample` keep to.

Modules, one per file: `Wrappers` (Option), `Text` (case folding, substring,
`str.replace`, code-point string order), `Sorting` (one stable insertion sort
used for every `ORDER BY` and `sorted`), `Dates` (calendar dates, the canonical
text and its decoder), `DateNormalizer`, `Schema` (tables and store invariant),
`Directory`, `Ledger`, `Seeder`, and `Scenarios` (worked examples).

Behaviours worth knowing:

- The seeder sorts weekday *names* as text, so a key reads `Fri,Mon,Wed`
  (alphabetical), not calendar order.
- The history orders appointment times as text. On one day, "10 AM" is listed
  before "9 AM". The model keeps this, as the source does.
- dateutil's parser without `fuzzy=True` rejects any word that is not a number,
  weekday, month, am/pm marker or filler word. So "next friday" and "tomorrow"
  read as not understood, even though the not-understood message suggests both.
  The rewrite to "next" therefore never helps the real grammar. The model's
  `parse` is a parameter, so its scenarios assume a grammar that reads such
  phrases. This comes from reading dateutil's code; nothing was executed.
- A `date` that is not a string makes `_parse_date` return `str(date)`.
  `str(None)` is "None", which does not start with `Error:`, so the booking
  would store "None" as the date.

## Model

All source paths are in `orchestrator_agent/sub_agents/appointment_agent/`.

| member | source | states |
|---|---|---|
| DateNormalizer.ParseDate | orchestrator_agent/sub_agents/appointment_agent/database.py:96-120 | The reply is an `Error:` message exactly when the grammar fails on the normalized text or gives a day before `today`. The past-date message starts with its own wording followed by the day in `%B %d, %Y` form. The not-understood message starts with its own wording followed by the original text in quotes. Any other reply decodes back to the parsed date. |
| DateNormalizer.ReplyTagged | orchestrator_agent/sub_agents/appointment_agent/database.py:114-120 | Of the three outcomes, only the accepted one yields a reply not starting with `Error:`. So the booking's prefix test tells acceptance from rejection. A past day gets the past-date wording and its long form; an unreadable text gets the not-understood wording and the text quoted. |
| DateNormalizer.PastReplyShape | orchestrator_agent/sub_agents/appointment_agent/database.py:115 | The past-date message starts with `Error:`, then its wording and the date in long form. |
| DateNormalizer.UnclearReplyShape | orchestrator_agent/sub_agents/appointment_agent/database.py:120 | The not-understood message starts with `Error:`, then its wording and the original text between quotes. |
| DateNormalizer.AcceptedNotBeforeToday | orchestrator_agent/sub_agents/appointment_agent/database.py:113-117 | An accepted date's canonical text is not below today's in text order, and it decodes back to the parsed date. |
| DateNormalizer.NormalizedHasNoComing | orchestrator_agent/sub_agents/appointment_agent/database.py:108 | After `lower().replace('coming', 'next')`, no "coming" is left in the text. |
| DateNormalizer.NormalizeIdempotent | orchestrator_agent/sub_agents/appointment_agent/database.py:108 | Normalizing the normalized text again changes nothing. |
| DateNormalizer.RewriteLeavesNoComing | orchestrator_agent/sub_agents/appointment_agent/database.py:108 | `replace('coming', 'next')` leaves no "coming" in any text. The inserted "next" cannot form one with its neighbours. |
| DateNormalizer.RewriteIdle | orchestrator_agent/sub_agents/appointment_agent/database.py:108 | Text containing no "coming" is unchanged by the rewrite. |
| DateNormalizer.RewriteAbsorbed | orchestrator_agent/sub_agents/appointment_agent/database.py:107-108 | Writing "next" for "coming" before the call gives the grammar the same text as the original, whatever the capitalisation. |
| DateNormalizer.ComingReadsAsNext | orchestrator_agent/sub_agents/appointment_agent/database.py:107-119 | A text, and the same text with "coming" written as "next", get the same outcome: the same accepted or past date, or both not understood. |
| Dates.IsoRoundTrip | orchestrator_agent/sub_agents/appointment_agent/database.py:117 | Decoding the `%Y-%m-%d` text of any date gives the date back. |
| Dates.IsoInjective | orchestrator_agent/sub_agents/appointment_agent/database.py:117 | Two dates have the same `%Y-%m-%d` text exactly when they are the same date. |
| Dates.ParseIsoCanonical | orchestrator_agent/sub_agents/appointment_agent/database.py:117 | Only the canonical text of a date decodes to that date, so canonical text and dates correspond one to one. |
| Dates.IsoOrder | orchestrator_agent/sub_agents/appointment_agent/database.py:232 | Zero-padded `YYYY-MM-DD` texts compare as text exactly as their dates compare in time. |
| Directory.Matching | orchestrator_agent/sub_agents/appointment_agent/database.py:138-144 | The `WHERE` clause keeps each doctor exactly as often as it occurs in the table when it passes both filters, and never otherwise. |
| Directory.Search | orchestrator_agent/sub_agents/appointment_agent/database.py:123-153 | The "no doctors" answer comes exactly when no doctor passes the filters. Otherwise 1 to 5 doctors come back, each from the table and passing the filters, sorted by experience, most first. |
| Directory.SearchIsTopFive | orchestrator_agent/sub_agents/appointment_agent/database.py:146-149 | The answer holds min(5, number of matches) doctors. It is a sub-multiset of the matches. No matching doctor left out is more experienced than a listed one. |
| Directory.RankedMatches | orchestrator_agent/sub_agents/appointment_agent/database.py:138-148 | The ordered candidates are exactly the doctors passing the filters, sorted by experience, most first. |
| Directory.PhysicianMeansGeneralPhysician | orchestrator_agent/sub_agents/appointment_agent/database.py:138-141 | A specialization filter mentioning "physician" in any case admits only doctors whose specialization contains "general physician", ignoring case. |
| Directory.AllAdmittedMatchAll | orchestrator_agent/sub_agents/appointment_agent/database.py:138-144 | When every doctor passes the filters, the candidates are the whole table in table order. |
| Directory.UnfilteredMatchesAll | orchestrator_agent/sub_agents/appointment_agent/database.py:135-144 | Empty filters impose no constraint: every doctor is a candidate. |
| Ledger.FindDoctor | orchestrator_agent/sub_agents/appointment_agent/database.py:180-182 | The lookup yields a doctor of the table with the requested key, and yields nothing exactly when no row has that key. |
| Ledger.Book | orchestrator_agent/sub_agents/appointment_agent/database.py:164-211 | With an unknown doctor, the answer carries the key and the store is unchanged. With a rejected date, the answer is `Failed` with the normalizer's `Error:` text and the store is unchanged. Otherwise one `Booked` row is appended under the next key, holding the accepted day's canonical date and the time verbatim. The doctors are unchanged, and the confirmation echoes the row and the doctor's name. |
| Ledger.BookedNotInPast | orchestrator_agent/sub_agents/appointment_agent/database.py:188-197 | A booked date is canonical and not below today's canonical text. |
| Ledger.BookPreservesWellFormed | orchestrator_agent/sub_agents/appointment_agent/database.py:195-200 | Booking keeps the store well formed: unique keys, existing doctors, canonical dates. The new key is one no earlier appointment has. |
| Ledger.JoinRow | orchestrator_agent/sub_agents/appointment_agent/database.py:230 | One appointment's joined entries come exactly from the doctor rows carrying its doctor key. How many there are is stated by `JoinRowUnique`. |
| Ledger.JoinRowNone | orchestrator_agent/sub_agents/appointment_agent/database.py:230 | An appointment whose doctor key no doctor row carries joins to no row. |
| Ledger.JoinRowUnique | orchestrator_agent/sub_agents/appointment_agent/database.py:230 | With unique doctor keys, an appointment joins to exactly one row: the entry of the doctor it references, once. |
| Ledger.Joined | orchestrator_agent/sub_agents/appointment_agent/database.py:227-231 | A joined row is exactly the projection of an appointment of the patient together with a doctor whose key it references. How many times each appears is stated by `JoinedAppend`. |
| Ledger.JoinedAppend | orchestrator_agent/sub_agents/appointment_agent/database.py:227-231 | Joining one more appointment gives the earlier join followed by that appointment's own rows (none if it belongs to another patient). So the join yields one row per (appointment, doctor) pair. |
| Ledger.History | orchestrator_agent/sub_agents/appointment_agent/database.py:216-251 | The "no appointments" answer comes exactly when none of the patient's appointments joins to a doctor. Otherwise the answer holds every joined row, each as often as the join yields it, sorted by (date, time) as text. |
| Ledger.ListedIsJoined | orchestrator_agent/sub_agents/appointment_agent/database.py:227-249 | The rows a history answer lists (none for the "no appointments" answer) are the joined rows, each as often as the join yields it. |
| Ledger.BookAddsOneHistoryRow | orchestrator_agent/sub_agents/appointment_agent/database.py:195-249 | In a well-formed store, a successful booking adds exactly one row to the booking patient's history. The row has the booked doctor's name, hospital and fee and the confirmed date and time. Every other patient's history is unchanged. Booking the same slot twice lists it twice. |
| Ledger.HistoryRowsArePatients | orchestrator_agent/sub_agents/appointment_agent/database.py:231 | Each history row comes from an appointment of that patient and its doctor. |
| Ledger.HistoryChronological | orchestrator_agent/sub_agents/appointment_agent/database.py:232 | In a well-formed store, history dates are canonical, and no row is dated after a later row. |
| Ledger.BookThenHistory | orchestrator_agent/sub_agents/appointment_agent/database.py:195-249 | After a successful booking, the patient's history has a row with the confirmed doctor name, date and time. |
| Seeder.SortDays | orchestrator_agent/sub_agents/appointment_agent/database.py:83 | The visiting days are the sampled days rearranged into strictly increasing text order. |
| Seeder.NewDoctor | orchestrator_agent/sub_agents/appointment_agent/database.py:73-86 | Each generated doctor has the following shape: a listed specialization and city, and a listed hospital suffixed with the city. Experience is 5 to 25 and the fee is a multiple of 100 from 800 to 2500. The hours start at 9 to 14 and end 2 to 4 hours later, on 3 to 5 distinct listed weekdays in text order. |
| Seeder.NewDoctors | orchestrator_agent/sub_agents/appointment_agent/database.py:72-86 | One doctor per draw, each of the seeded shape, keyed consecutively. |
| Seeder.SeedIfEmpty | orchestrator_agent/sub_agents/appointment_agent/database.py:57-93 | A non-empty doctors table is left as it is. Otherwise exactly `count` doctors of the seeded shape are added under consecutive fresh keys, and the appointments stay untouched. |
| Seeder.SeedTwice | orchestrator_agent/sub_agents/appointment_agent/database.py:60-62 | A second seeding after one that inserted rows is a no-op. |
| Seeder.SeedPreservesWellFormed | orchestrator_agent/sub_agents/appointment_agent/database.py:88-91 | Seeding keeps the store well formed. |
| Seeder.BootstrapDirectory | orchestrator_agent/sub_agents/appointment_agent/database.py:253-260 | The bootstrap's fresh tables seeded with 1000 draws hold exactly 1000 doctors keyed 1 to 1000, no appointments, and a well-formed store. |
| Schema.EmptyStoreWellFormed | orchestrator_agent/sub_agents/appointment_agent/database.py:29-51 | Freshly created tables, empty with both keys at 1, are well formed. |
| Sorting.SortBy | orchestrator_agent/sub_agents/appointment_agent/database.py:146 | Sorting rearranges its input: the same multiset. Under a total preorder, the output is in order. |
| Scenarios.RankedSearch | orchestrator_agent/sub_agents/appointment_agent/database.py:138-149 | When exactly three doctors of a directory pass the filters, with 10, 20 and 15 years, they come back ordered 20, 15, 10, whatever other doctors the directory holds. |
| Scenarios.RankedSearchExample | orchestrator_agent/sub_agents/appointment_agent/database.py:138-149 | Three Mumbai cardiologists with 10, 20 and 15 years, searched as "Cardiologist" in "Mumbai", come back ordered 20, 15, 10. |
| Scenarios.FutureBookingExample | orchestrator_agent/sub_agents/appointment_agent/database.py:188-211 | Booking "next Friday", read as 2025-01-17 and not yet past, at "10 AM" confirms `2025-01-17` and `10 AM`. |
| Scenarios.PastBookingExample | orchestrator_agent/sub_agents/appointment_agent/database.py:188-192 | Booking a day already past fails with the past-date message and writes nothing. |

## Left out

- The connection handling, the `print` calls, and `CREATE TABLE IF NOT EXISTS` on a file that already holds tables. The store is in memory. Freshly created tables are `EmptyStore`, and the bootstrap's seeding of them is `BootstrapDirectory`. The "could not connect" and `sqlite3.Error` answers are not modelled: each is a persistence fault, not logic.
- Ledger.Book: arguments SQLite cannot bind are not modelled. A `doctor_id` outside the 64-bit range raises `OverflowError` at the lookup. A lone surrogate in `patient_name` or `time` raises `UnicodeEncodeError` at the insert, and Dafny strings cannot hold one. Neither is a `sqlite3.Error`, so the source raises past its handler and leaves the connection open. The model answers instead: `UnknownDoctor` for such a key, since no row carries it.
- The date grammar (dateutil, month-first) and `datetime.now()`. They are the parameters `parse` and `today`.
- The non-string branch of `_parse_date`. It is a dynamic-typing artefact; its consequence for the booking is noted above.
- Grammar faults other than `ValueError` and `TypeError`. dateutil raises `OverflowError` for a number too large for a C integer. `_parse_date` does not catch it, and neither does the `sqlite3.Error` handler of the booking. The caller then gets an exception rather than an answer, with the connection left open. In the model, every grammar failure is `None` from `parse` and reads as not understood, so `Book` always answers.
- Python's `str.lower()`. The model folds ASCII letters only; Unicode case mapping is not modelled.
- `LIKE` on the search filters. It is a case-insensitive substring match. `%` and `_` inside user input are not treated as wildcards, and SQLite's exact case folding is not modelled.
- JSON serialisation and the answer strings other than `_parse_date`'s. This includes "No doctor found with ID ...", "No doctors found ..." and "No appointments found for ...". Answers are tagged datatypes carrying the same data. The exception is the search answer: it carries whole doctor rows, including `location`, which the `SELECT` does not return.
- `ORDER BY` ties. SQLite leaves their order unspecified. The model breaks them by table order, and no contract depends on that choice.
- NULL columns. Rows are only ever written by the seeder and the booking, which fill every column.
- `consultation_fee` is a REAL column; the model keeps the integer the seeder computes.
- `visiting_hours` is a structured value, not JSON text.
- `%Y` in `strftime`. The model pads every year to four digits: in the canonical date and in the past-date message's long form. Some C libraries print years below 1000 without padding (year 99 as "99", not "0099"). Such a past date's message, and such a canonical date, would differ from the model's text.
- Seeder: the `random` and Faker calls are not modelled. A `Draw` per doctor carries their results, and `DrawInRange` states their ranges. A negative `count` is not modelled; `count` is a `nat`.
- The progress messages the seeder prints.
- Concurrency. Simultaneous bookings are not coordinated in the source, and no double-booking check exists there or here.
