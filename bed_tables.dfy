/**
 * The two tables of the hospital bed page, `hospital_beds` and `patient_beds`,
 * as values, together with the seed rows and the consistency condition that
 * ties occupancy counts to assignment rows.
 */
module BedTables {

  /** A clock reading supplied by the caller (the page passes the current time). */
  type Timestamp = int

  /** One row of `hospital_beds`, keyed by its ward type. */
  datatype WardBeds = WardBeds(total: int, occupied: int, available: int)

  /** One row of `patient_beds`, keyed by its patient id. */
  datatype Assignment = Assignment(ward: string, bedAssigned: int, assignedAt: Timestamp)

  /** Both tables: ward type -> counts, patient id -> assignment. */
  datatype Tables = Tables(beds: map<string, WardBeds>, patients: map<string, Assignment>)

  /** The tables right after they are created, before any row is inserted. */
  const EmptyTables := Tables(map[], map[])

  /** The rows inserted into an empty `hospital_beds`. */
  const SeedRows: map<string, WardBeds> :=
    map["ICU" := WardBeds(50, 46, 4), "Ward" := WardBeds(100, 85, 15)]

  /** The occupancy each ward is seeded with; no assignment row stands behind it. */
  const SeedOccupancy: map<string, int> :=
    map["ICU" := 46, "Ward" := 85]

  /** The patients whose assignment row names `ward`. */
  function PatientsIn(patients: map<string, Assignment>, ward: string): set<string>
  {
    set p | p in patients && patients[p].ward == ward
  }

  /** The number of assignment rows for `ward`. */
  function WardCount(patients: map<string, Assignment>, ward: string): nat
  {
    |PatientsIn(patients, ward)|
  }

  /** A ward row is balanced: its occupancy is the seeded part plus one bed per
      assignment row, and its occupied and available beds make up its total. */
  predicate RowBalanced(row: WardBeds, seeded: int, rows: nat)
  {
    && 0 <= seeded
    && row.occupied == seeded + rows
    && row.occupied + row.available == row.total
    && 0 <= row.available
  }

  /** Ward `w` exists and is balanced against its patient rows and its seeded occupancy. */
  ghost predicate WardBalanced(t: Tables, seeded: map<string, int>, w: string)
  {
    w in t.beds && w in seeded && RowBalanced(t.beds[w], seeded[w], WardCount(t.patients, w))
  }

  /** Patient `p` has a row that names an existing ward and carries the marker 1. */
  ghost predicate RowValid(t: Tables, p: string)
  {
    p in t.patients && t.patients[p].ward in t.beds && t.patients[p].bedAssigned == 1
  }

  /** The consistency of the two tables, given the occupancy each ward was seeded with.
      Each conjunct is used ward by ward and row by row, through the two predicates above. */
  ghost predicate Consistent(t: Tables, seeded: map<string, int>)
  {
    && t.beds.Keys == seeded.Keys
    && (forall w {:trigger WardBalanced(t, seeded, w)} :: w in t.beds ==> WardBalanced(t, seeded, w))
    && (forall p {:trigger RowValid(t, p)} :: p in t.patients ==> RowValid(t, p))
  }

  /** Inserting a new patient row adds one to the count of its ward and
      leaves every other ward's count as it was. */
  lemma CountAfterInsert(patients: map<string, Assignment>, p: string, a: Assignment, ward: string)
    requires p !in patients
    ensures WardCount(patients[p := a], ward)
            == WardCount(patients, ward) + (if a.ward == ward then 1 else 0)
  {
    var before := PatientsIn(patients, ward);
    var after := PatientsIn(patients[p := a], ward);
    if a.ward == ward {
      assert after == before + {p};
    } else {
      assert after == before;
    }
  }

  /** Deleting a patient row takes one from the count of the ward it named and
      leaves every other ward's count as it was. */
  lemma CountAfterRemove(patients: map<string, Assignment>, p: string, ward: string)
    requires p in patients
    ensures WardCount(patients - {p}, ward)
            == WardCount(patients, ward) - (if patients[p].ward == ward then 1 else 0)
  {
    var before := PatientsIn(patients, ward);
    var after := PatientsIn(patients - {p}, ward);
    if patients[p].ward == ward {
      assert before == after + {p};
    } else {
      assert after == before;
    }
  }

  /** The seed rows with no assignment rows are consistent, with the seeded
      occupancy as baseline: 46 + 4 == 50 and 85 + 15 == 100. */
  lemma SeedRowsConsistent()
    ensures Consistent(Tables(SeedRows, map[]), SeedOccupancy)
  {
  }

  /** In a consistent state no count is negative, occupancy never exceeds the
      total, and a ward holds at least as many occupied beds as assignment rows. */
  lemma OccupancyBounds(t: Tables, seeded: map<string, int>, w: string)
    requires Consistent(t, seeded)
    requires w in t.beds
    ensures 0 <= t.beds[w].available <= t.beds[w].total
    ensures WardCount(t.patients, w) <= t.beds[w].occupied <= t.beds[w].total
  {
    assert WardBalanced(t, seeded, w);
  }

  /** In a consistent state every ward row is balanced (stated as an
      implication so that it can be used where consistency is only a hypothesis). */
  lemma ConsistentWards(t: Tables, seeded: map<string, int>)
    ensures Consistent(t, seeded) ==>
      forall w :: w in t.beds ==> RowBalanced(t.beds[w], seeded[w], WardCount(t.patients, w))
  {
    if Consistent(t, seeded) {
      forall w | w in t.beds
        ensures RowBalanced(t.beds[w], seeded[w], WardCount(t.patients, w))
      {
        assert WardBalanced(t, seeded, w);
      }
    }
  }

  /** With no wards there can be no assignment rows. */
  lemma NoWardsNoPatients(t: Tables, seeded: map<string, int>)
    requires Consistent(t, seeded)
    requires |t.beds| == 0
    ensures t.patients == map[]
  {
    forall p | p in t.patients
      ensures t.patients[p].ward in t.beds
    {
      assert RowValid(t, p);
    }
    assert t.beds == map[];
    if p :| p in t.patients {
      assert false;
    }
  }
}
