# Hospital bed ledger

A Dafny model of the bed ledger on the hospital bed page (`pages/bed_availability.py`).
The ledger keeps two tables:

- `hospital_beds`: one row per ward type, holding its total, occupied and available beds.
- `patient_beds`: one row per patient who holds a bed, holding its ward, the `bed_assigned` marker (always 1) and the assignment time.

Four operations work on these tables:

- `init_db` seeds the ICU (50 total, 46 occupied, 4 available) and the general Ward (100, 85, 15), but only when `hospital_beds` has no rows.
- `assign_bed` rejects a patient who already has a row. It then rejects a ward whose `available_beds <= 0`. Otherwise it inserts the patient row and moves one bed from available to occupied.
- `revoke_bed` rejects a patient with no row. Otherwise it deletes the row and moves one bed of the recorded ward back to available.
- `fetch_bed_status` returns a copy of the ward rows.

The model has three files:

- `bed_tables.dfy` (module `BedTables`) holds the rows, the seed rows and the consistency condition `Consistent`. For every ward it says:
  - occupied + available == total;
  - available >= 0;
  - occupied == seeded occupancy + the number of patient rows naming the ward;
  - every patient row names an existing ward and has marker 1.
- `bed_allocator.dfy` (module `BedAllocator`) has `Seed`, `Assign` and `Revoke` as functions on both tables, plus `Run`, which applies any sequence of calls. Its lemmas cover consistency, round trips, rejections and the last-bed case.
- `bed_availability.dfy` (module `BedAvailability`) has the class `BedLedger`. Its two map fields are the tables, and it keeps the seeded occupancy as a ghost field. Its methods run the page's steps in the page's order. Each one is proved to compute what the matching `BedAllocator` function computes and to keep `Valid()`.

Two properties one might expect do not hold of the code, and the model follows the code:

- Occupancy vs. assignment rows: the seeded 46 and 85 occupied beds have no patient rows behind them (`SeededOccupancyHasNoRows`). So the invariant is "seeded occupancy plus one bed per row", not "occupied equals rows".
- Unknown ward: the code has no typed error for a ward that does not exist. Its ward lookup (`c.fetchone()[0]`, pages/bed_availability.py:76) raises instead. That lookup runs only after the already-assigned check, so an already-assigned patient gets "already has a bed" whatever ward is named. `Assign` therefore requires `patient in patients || ward in beds`, and a sequence of calls (`Run`) requires exactly this of each call in the state it meets (`Runnable`). `KnownWardsRunnable` shows that this always holds when every assign names an existing ward, as the page's ward selector ensures.

`revoke_bed` never checks that the recorded ward row exists. Its update simply matches no row when the ward is missing, and `Revoke` models that no-op. In a consistent ledger the ward row always exists.

## Model

| member | source | states |
|---|---|---|
| BedTables.CountAfterInsert | pages/bed_availability.py:80-81 | inserting a new patient row raises its ward's row count by one and leaves every other ward's count unchanged |
| BedTables.CountAfterRemove | pages/bed_availability.py:113 | deleting a patient row lowers the count of the ward it named by one and leaves every other ward's count unchanged |
| BedTables.SeedRowsConsistent | pages/bed_availability.py:42-45 | the seed rows with no patient rows are consistent: 46 + 4 == 50 and 85 + 15 == 100 |
| BedTables.OccupancyBounds | pages/bed_availability.py:17-24 | in a consistent state 0 <= available <= total, and rows for the ward <= occupied <= total |
| BedAllocator.Outcome.Message | pages/bed_availability.py:70-124 | every message starts with a check mark exactly when the call succeeded and with a cross exactly when it failed |
| BedAllocator.Seed | pages/bed_availability.py:37-45 | the fixed ICU/Ward rows are inserted exactly when the ward table is empty; existing rows and patient rows are never touched |
| BedAllocator.Assign | pages/bed_availability.py:62-95 | an already-assigned patient is rejected first; then an unassigned patient on a ward with available <= 0; both rejections leave both tables unchanged; a success adds exactly the patient row (ward, marker 1, time), keeps every other patient row, and moves one bed of that ward and no other from available to occupied with the total unchanged |
| BedAllocator.Revoke | pages/bed_availability.py:98-124 | a patient without a row is rejected with both tables unchanged; otherwise exactly that row is deleted and the ward recorded in the row (no other ward) gets one bed back from occupied to available, with the ward set unchanged |
| BedAllocator.Run | pages/bed_availability.py:62-124 | no sequence of calls adds or deletes a ward row |
| BedAllocator.KnownWardsRunnable | pages/bed_availability.py:62-95 | a sequence of calls whose assigns all name existing wards can always be answered, whatever patients it names |
| BedAllocator.SeedPreservesConsistent | pages/bed_availability.py:37-45 | seeding keeps the tables consistent; on an empty ward table the baseline becomes the seeded occupancy |
| BedAllocator.AssignPreservesConsistent | pages/bed_availability.py:78-88 | assign keeps occupied + available == total, available >= 0 and occupied == seeded + rows for every ward |
| BedAllocator.RevokePreservesConsistent | pages/bed_availability.py:103-120 | revoke keeps the same consistency, because the ward that loses a row is the ward that gets a bed back |
| BedAllocator.RunPreservesConsistent | pages/bed_availability.py:62-124 | every sequence of assign/revoke calls that can be answered keeps the tables consistent |
| BedAllocator.ReachableStatesConsistent | pages/bed_availability.py:37-124 | in every state reached from the seeded tables through calls that can be answered, every ward has occupied + available == total, no negative count, and occupied == seeded + rows |
| BedAllocator.SeedIdempotent | pages/bed_availability.py:37-38 | seeding twice gives the same tables as seeding once |
| BedAllocator.AssignThenRevokeRestores | pages/bed_availability.py:80-120 | a successful assign followed by revoking the same patient restores both tables exactly |
| BedAllocator.RevokeTwice | pages/bed_availability.py:103-108 | revoking an assigned patient twice succeeds once; the second call reports no bed and changes nothing |
| BedAllocator.AssignTwice | pages/bed_availability.py:67-72 | assigning the same patient twice succeeds once; the second call is rejected and changes nothing, so occupancy rises by exactly one |
| BedAllocator.LastBedGoesOnce | pages/bed_availability.py:75-95 | with one bed left, of two unassigned patients the first gets it, the second is told there is none, and none is left |
| BedAllocator.SeededOccupancyHasNoRows | pages/bed_availability.py:43-44 | right after seeding the ICU has 46 occupied beds and no patient rows, so occupied beds do not equal the row count |
| BedAvailability.BedLedger.constructor | pages/bed_availability.py:17-34 | creating the tables gives two empty tables and a valid ledger |
| BedAvailability.BedLedger.InitDb | pages/bed_availability.py:37-45 | the tables become Seed of the old tables, the ledger stays valid, and the seeded baseline is set only when the ward table was empty |
| BedAvailability.BedLedger.FetchBedStatus | pages/bed_availability.py:53-59 | returns a copy of every ward row; in a valid ledger each shows occupied + available == total and no negative count |
| BedAvailability.BedLedger.AssignBed | pages/bed_availability.py:62-95 | succeeds iff the patient had no row and the ward had an available bed; the new tables, the boolean and the message are those of Assign; the ledger stays valid |
| BedAvailability.BedLedger.RevokeBed | pages/bed_availability.py:98-124 | succeeds iff the patient had a row; the new tables, the boolean and the message are those of Revoke; the ledger stays valid |
| BedAvailability.AssignRevokeSession | pages/bed_availability.py:139-154 | a page session that seeds twice, assigns an ICU bed, revokes it and revokes again ends with the seeded tables, and the second revoke returns false with the "No bed found" message |

## Left out

- Storage: the SQLite connection, cursor, commit and close are left out. The tables are in-memory maps, and each call is one atomic step.
- Concurrency: races between concurrent callers and transactions are not modelled. The code runs check-then-act without locking, and the model treats every call as a sequential step.
- Assignment time: `datetime.now()` is not modelled. The time is a `Timestamp` parameter that the caller supplies.
- BedLedger.AssignBed: an unassigned patient on a missing ward raises an exception in the code. Here this case is excluded by a precondition and has no error outcome.
- Page UI: the Streamlit UI, the check that the patient id is not blank, the ward selection box and the session state are not modelled. Only the calls they make are.
- Restarts: persistence across restarts is not modelled. A page load on an existing database re-runs `init_db`, which is modelled as calling `InitDb` again on the same ledger (`SeedIdempotent`).
- Other pages: billing, length-of-stay and risk prediction, patient records, login, signup and the dashboard are not part of this model. They are forms, plain inserts and selects, or calls into trained models on floating-point inputs.
