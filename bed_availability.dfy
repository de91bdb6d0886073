/**
 * The bed ledger of pages/bed_availability.py as an object whose two map
 * fields are the `hospital_beds` and `patient_beds` tables. Its methods check
 * and update the tables in the page's order; each is proved to do what the
 * corresponding function of BedAllocator says, and to keep the tables
 * consistent.
 */
module BedAvailability {
  import opened BedTables
  import opened BedAllocator

  class BedLedger {
    /** `hospital_beds`: ward type -> total, occupied and available beds. */
    var beds: map<string, WardBeds>
    /** `patient_beds`: patient id -> ward, bed marker and assignment time. */
    var patients: map<string, Assignment>
    /** The occupancy each ward was seeded with, which no patient row accounts for. */
    ghost var seeded: map<string, int>

    ghost predicate Valid()
      reads this
    {
      Consistent(Tables(beds, patients), seeded)
    }

    /** Both tables, as one value. */
    function Snapshot(): Tables
      reads this
    {
      Tables(beds, patients)
    }

    /** Creating both tables on a fresh database: no rows yet. */
    constructor ()
      ensures Valid()
      ensures Snapshot() == EmptyTables && seeded == map[]
    {
      beds := map[];
      patients := map[];
      seeded := map[];
    }

    /** `init_db`: count the ward rows and insert the seed rows only when there are none. */
    method InitDb()
      requires Valid()
      modifies this
      ensures Valid()
      ensures Snapshot() == Seed(old(Snapshot()))
      ensures seeded == if |old(beds)| == 0 then SeedOccupancy else old(seeded)
    {
      SeedPreservesConsistent(Snapshot(), seeded);
      var count := |beds|;
      if count == 0 {
        beds := SeedRows;
        seeded := SeedOccupancy;
      }
    }

    /** `fetch_bed_status`: a copy of every ward row; in a valid ledger each
        shows occupied + available == total and no negative count. */
    function FetchBedStatus(): (status: map<string, WardBeds>)
      reads this
      ensures status.Keys == beds.Keys
      ensures forall w :: w in status ==> status[w] == beds[w]
      ensures Valid() ==>
        forall w :: w in status ==>
          && status[w].occupied + status[w].available == status[w].total
          && 0 <= status[w].available
          && 0 <= status[w].occupied
    {
      ConsistentWards(Snapshot(), seeded);
      map w | w in beds :: beds[w]
    }

    /** `assign_bed`: reject a patient who already has a row, then a ward without
        an available bed; otherwise insert the patient row and move one bed of
        the ward from available to occupied. */
    method AssignBed(patientId: string, wardType: string, assignedAt: Timestamp)
      returns (success: bool, message: string)
      requires Valid()
      requires patientId in patients || wardType in beds
      modifies this
      ensures Valid() && seeded == old(seeded)
      ensures success <==> old(patientId !in patients) && old(beds[wardType].available) > 0
      ensures var step := Assign(Tables(old(beds), old(patients)), patientId, wardType, assignedAt);
        && Tables(beds, patients) == step.tables
        && success == step.outcome.Succeeded()
        && message == step.outcome.Message()
    {
      AssignPreservesConsistent(Tables(beds, patients), seeded, patientId, wardType, assignedAt);
      if patientId in patients {
        return false, AlreadyHasBed.Message();
      }
      var availableBeds := beds[wardType].available;
      if availableBeds > 0 {
        patients := patients[patientId := Assignment(wardType, 1, assignedAt)];
        var row := beds[wardType];
        beds := beds[wardType := row.(occupied := row.occupied + 1, available := row.available - 1)];
        success, message := true, BedAssigned(patientId, wardType).Message();
      } else {
        success, message := false, NoAvailableBeds(wardType).Message();
      }
    }

    /** `revoke_bed`: reject a patient without a row; otherwise delete the row and
        move one bed of the ward recorded in it back from occupied to available. */
    method RevokeBed(patientId: string) returns (success: bool, message: string)
      requires Valid()
      modifies this
      ensures Valid() && seeded == old(seeded)
      ensures success <==> old(patientId in patients)
      ensures var step := Revoke(Tables(old(beds), old(patients)), patientId);
        && Tables(beds, patients) == step.tables
        && success == step.outcome.Succeeded()
        && message == step.outcome.Message()
    {
      RevokePreservesConsistent(Tables(beds, patients), seeded, patientId);
      if patientId !in patients {
        return false, NoBedFound.Message();
      }
      var wardType := patients[patientId].ward;
      patients := patients - {patientId};
      if wardType in beds {
        var row := beds[wardType];
        beds := beds[wardType := row.(occupied := row.occupied - 1, available := row.available + 1)];
      }
      success, message := true, BedRevoked(patientId).Message();
    }
  }

  /** A page session: create and seed the tables, assign a bed, revoke it.
      The tables end as they were after seeding, and a second revoke is refused. */
  method AssignRevokeSession(patientId: string, at: Timestamp)
    returns (ledger: BedLedger, again: bool, message: string)
    ensures fresh(ledger) && ledger.Valid()
    ensures ledger.Snapshot() == Seed(EmptyTables)
    ensures !again && message == NoBedFound.Message()
  {
    ledger := new BedLedger();
    ledger.InitDb();
    ledger.InitDb();
    var gotBed, _ := ledger.AssignBed(patientId, "ICU", at);
    assert gotBed;
    var revoked, _ := ledger.RevokeBed(patientId);
    assert revoked;
    AssignThenRevokeRestores(Seed(EmptyTables), patientId, "ICU", at);
    again, message := ledger.RevokeBed(patientId);
  }
}
