/**
 * The bed allocator of the hospital bed page as functions on both tables:
 * seeding, assigning a bed, revoking a bed, and any sequence of requests.
 * The lemmas state the consistency every step keeps and the round trips and
 * rejections the page promises.
 */
module BedAllocator {
  import opened BedTables

  /** What an assign or revoke call reports; its message is the text shown to staff. */
  datatype Outcome =
    | BedAssigned(patient: string, ward: string)
    | AlreadyHasBed
    | NoAvailableBeds(ward: string)
    | BedRevoked(patient: string)
    | NoBedFound
  {
    /** The boolean half of the result pair. */
    predicate Succeeded()
    {
      BedAssigned? || BedRevoked?
    }

    /** The message half of the result pair: a check mark on success, a cross
        otherwise, then the text. */
    function Message(): (m: string)
      ensures |m| > 1 && m[1] == ' ' && m[2..] == Text()
      ensures m[0] == '\U{2705}' <==> Succeeded()
      ensures m[0] == '\U{274C}' <==> !Succeeded()
    {
      [if Succeeded() then '\U{2705}' else '\U{274C}', ' '] + Text()
    }

    /** The text of the message, which names the patient or ward where the page does. */
    function Text(): string
    {
      match this
      case BedAssigned(p, w) => "Bed assigned to patient " + p + " in " + w + "."
      case AlreadyHasBed => "Patient already has a bed assigned!"
      case NoAvailableBeds(w) => "No available beds in " + w + "."
      case BedRevoked(p) => "Bed revoked for patient " + p + "."
      case NoBedFound => "No bed found for this patient."
    }
  }

  /** The tables after a call, and what the call reported. */
  datatype Step = Step(tables: Tables, outcome: Outcome)

  /** Seeding: the fixed ward rows go in only when `hospital_beds` has no row;
      otherwise nothing changes. */
  function Seed(t: Tables): (r: Tables)
    ensures r.patients == t.patients
    ensures |t.beds| == 0 ==> r.beds == SeedRows
    ensures forall w :: w in t.beds ==> w in r.beds && r.beds[w] == t.beds[w]
    ensures |t.beds| != 0 ==> r == t
  {
    if |t.beds| == 0 then Tables(SeedRows, t.patients) else t
  }

  /** Assigning a bed: a patient who already has a row is rejected first; then a
      ward with no available bed; otherwise the patient row is inserted and one
      bed moves from available to occupied. The ward must exist unless the
      patient is already assigned (the lookup of a missing ward fails). */
  function Assign(t: Tables, patient: string, ward: string, at: Timestamp): (r: Step)
    requires patient in t.patients || ward in t.beds
    ensures r.outcome.AlreadyHasBed? <==> patient in t.patients
    ensures r.outcome.NoAvailableBeds? <==> patient !in t.patients && t.beds[ward].available <= 0
    ensures r.outcome.BedAssigned? <==> patient !in t.patients && t.beds[ward].available > 0
    ensures r.outcome.NoAvailableBeds? ==> r.outcome.ward == ward
    ensures r.outcome.BedAssigned? ==> r.outcome == BedAssigned(patient, ward)
    ensures !r.outcome.BedAssigned? ==> r.tables == t
    // a success adds exactly the new patient row ...
    ensures r.outcome.BedAssigned? ==>
      && r.tables.patients.Keys == t.patients.Keys + {patient}
      && r.tables.patients[patient] == Assignment(ward, 1, at)
      && (forall q :: q in t.patients ==> r.tables.patients[q] == t.patients[q])
    // ... and moves one bed of that ward, and of no other, from available to occupied
    ensures r.outcome.BedAssigned? ==>
      && r.tables.beds.Keys == t.beds.Keys
      && r.tables.beds[ward].total == t.beds[ward].total
      && r.tables.beds[ward].occupied == t.beds[ward].occupied + 1
      && r.tables.beds[ward].available == t.beds[ward].available - 1
      && (forall w :: w in t.beds && w != ward ==> r.tables.beds[w] == t.beds[w])
  {
    if patient in t.patients then
      Step(t, AlreadyHasBed)
    else if t.beds[ward].available > 0 then
      var row := t.beds[ward];
      var patients := t.patients[patient := Assignment(ward, 1, at)];
      var beds := t.beds[ward := row.(occupied := row.occupied + 1, available := row.available - 1)];
      Step(Tables(beds, patients), BedAssigned(patient, ward))
    else
      Step(t, NoAvailableBeds(ward))
  }

  /** Revoking a bed: an unknown patient is rejected; otherwise the patient row is
      deleted and one bed of the ward recorded in that row moves back from
      occupied to available (an update that matches no ward row changes nothing). */
  function Revoke(t: Tables, patient: string): (r: Step)
    ensures r.outcome == if patient in t.patients then BedRevoked(patient) else NoBedFound
    ensures patient !in t.patients ==> r.tables == t
    // a success deletes exactly that patient's row ...
    ensures patient in t.patients ==>
      && r.tables.patients.Keys == t.patients.Keys - {patient}
      && (forall q :: q in r.tables.patients ==> r.tables.patients[q] == t.patients[q])
    // ... and gives back one bed of the recorded ward, and of no other
    ensures patient in t.patients ==>
      var ward := t.patients[patient].ward;
      && r.tables.beds.Keys == t.beds.Keys
      && (ward in t.beds ==>
            && r.tables.beds[ward].total == t.beds[ward].total
            && r.tables.beds[ward].occupied == t.beds[ward].occupied - 1
            && r.tables.beds[ward].available == t.beds[ward].available + 1)
      && (forall w :: w in t.beds && w != ward ==> r.tables.beds[w] == t.beds[w])
  {
    if patient !in t.patients then
      Step(t, NoBedFound)
    else
      var ward := t.patients[patient].ward;
      var patients := t.patients - {patient};
      var beds :=
        if ward in t.beds then
          var row := t.beds[ward];
          t.beds[ward := row.(occupied := row.occupied - 1, available := row.available + 1)]
        else
          t.beds;
      Step(Tables(beds, patients), BedRevoked(patient))
  }

  /** A call a caller can make: assign a bed or revoke one. */
  datatype Request =
    | AssignRequest(patient: string, ward: string, at: Timestamp)
    | RevokeRequest(patient: string)

  /** The call can be answered: an assign names an existing ward unless its
      patient already has a row (only then is the ward looked up). */
  predicate Allowed(t: Tables, req: Request)
  {
    req.AssignRequest? ==> req.patient in t.patients || req.ward in t.beds
  }

  /** One call, applied to the tables. */
  function Apply(t: Tables, req: Request): (r: Step)
    requires Allowed(t, req)
    ensures r.tables.beds.Keys == t.beds.Keys
  {
    match req
    case AssignRequest(p, w, at) => Assign(t, p, w, at)
    case RevokeRequest(p) => Revoke(t, p)
  }

  /** Every call of the sequence can be answered in the state the calls before it leave. */
  predicate Runnable(t: Tables, reqs: seq<Request>)
    decreases |reqs|
  {
    reqs == [] || (Allowed(t, reqs[0]) && Runnable(Apply(t, reqs[0]).tables, reqs[1..]))
  }

  /** A sequence of calls, one after the other, each an atomic step. */
  function Run(t: Tables, reqs: seq<Request>): (r: Tables)
    requires Runnable(t, reqs)
    ensures r.beds.Keys == t.beds.Keys
    decreases |reqs|
  {
    if reqs == [] then
      t
    else
      Run(Apply(t, reqs[0]).tables, reqs[1..])
  }

  /** Every assign request names one of `wards`. */
  predicate WardsKnown(reqs: seq<Request>, wards: set<string>)
  {
    forall i :: 0 <= i < |reqs| && reqs[i].AssignRequest? ==> reqs[i].ward in wards
  }

  /** Calls whose assign requests all name existing wards (the only wards the
      page offers) can always be answered, whatever the patients. */
  lemma {:induction false} KnownWardsRunnable(t: Tables, reqs: seq<Request>)
    requires WardsKnown(reqs, t.beds.Keys)
    ensures Runnable(t, reqs)
    decreases |reqs|
  {
    if reqs != [] {
      assert reqs[0].AssignRequest? ==> reqs[0].ward in t.beds;
      var next := Apply(t, reqs[0]).tables;
      assert WardsKnown(reqs[1..], next.beds.Keys) by {
        forall i | 0 <= i < |reqs[1..]| && reqs[1..][i].AssignRequest?
          ensures reqs[1..][i].ward in next.beds.Keys
        {
          assert reqs[1..][i] == reqs[i + 1];
        }
      }
      KnownWardsRunnable(next, reqs[1..]);
    }
  }

  /** Seeding keeps the tables consistent; on an empty ward table the
      baseline becomes the seeded occupancy. */
  lemma SeedPreservesConsistent(t: Tables, seeded: map<string, int>)
    requires Consistent(t, seeded)
    ensures Consistent(Seed(t), if |t.beds| == 0 then SeedOccupancy else seeded)
  {
    if |t.beds| == 0 {
      NoWardsNoPatients(t, seeded);
      SeedRowsConsistent();
    }
  }

  /** Assigning a bed keeps occupied + available == total, keeps availability
      non-negative, and keeps occupancy equal to the seeded part plus the rows. */
  lemma AssignPreservesConsistent(t: Tables, seeded: map<string, int>, patient: string, ward: string, at: Timestamp)
    requires Consistent(t, seeded)
    requires patient in t.patients || ward in t.beds
    ensures Consistent(Assign(t, patient, ward, at).tables, seeded)
  {
    var r := Assign(t, patient, ward, at);
    if r.outcome.BedAssigned? {
      var a := Assignment(ward, 1, at);
      assert r.tables.patients == t.patients[patient := a];
      forall w | w in r.tables.beds
        ensures WardBalanced(r.tables, seeded, w)
      {
        assert WardBalanced(t, seeded, w);
        CountAfterInsert(t.patients, patient, a, w);
      }
      forall q | q in r.tables.patients
        ensures RowValid(r.tables, q)
      {
        if q != patient {
          assert RowValid(t, q);
        }
      }
    }
  }

  /** Revoking a bed keeps the tables consistent: the ward that loses a row is
      the ward that gives back a bed. */
  lemma RevokePreservesConsistent(t: Tables, seeded: map<string, int>, patient: string)
    requires Consistent(t, seeded)
    ensures Consistent(Revoke(t, patient).tables, seeded)
  {
    var r := Revoke(t, patient);
    if patient in t.patients {
      assert r.tables.patients == t.patients - {patient};
      assert RowValid(t, patient);
      forall w | w in r.tables.beds
        ensures WardBalanced(r.tables, seeded, w)
      {
        assert WardBalanced(t, seeded, w);
        CountAfterRemove(t.patients, patient, w);
      }
      forall q | q in r.tables.patients
        ensures RowValid(r.tables, q)
      {
        assert RowValid(t, q);
      }
    }
  }

  /** Every sequence of calls keeps the tables consistent. */
  lemma {:induction false} RunPreservesConsistent(t: Tables, seeded: map<string, int>, reqs: seq<Request>)
    requires Consistent(t, seeded)
    requires Runnable(t, reqs)
    ensures Consistent(Run(t, reqs), seeded)
    decreases |reqs|
  {
    if reqs != [] {
      var next := Apply(t, reqs[0]).tables;
      match reqs[0] {
        case AssignRequest(p, w, at) => AssignPreservesConsistent(t, seeded, p, w, at);
        case RevokeRequest(p) => RevokePreservesConsistent(t, seeded, p);
      }
      RunPreservesConsistent(next, seeded, reqs[1..]);
    }
  }

  /** In every state reachable from freshly created and seeded tables through
      calls that can be answered, every ward has occupied + available == total,
      no negative count, and its seeded occupancy plus one bed per assignment row. */
  lemma ReachableStatesConsistent(reqs: seq<Request>)
    requires Runnable(Seed(EmptyTables), reqs)
    ensures Consistent(Run(Seed(EmptyTables), reqs), SeedOccupancy)
    ensures var t := Run(Seed(EmptyTables), reqs);
      forall w :: w in t.beds ==>
        && t.beds[w].occupied + t.beds[w].available == t.beds[w].total
        && 0 <= t.beds[w].available
        && 0 <= t.beds[w].occupied
        && t.beds[w].occupied == SeedOccupancy[w] + WardCount(t.patients, w)
  {
    assert Consistent(EmptyTables, map[]);
    SeedPreservesConsistent(EmptyTables, map[]);
    RunPreservesConsistent(Seed(EmptyTables), SeedOccupancy, reqs);
    var t := Run(Seed(EmptyTables), reqs);
    forall w | w in t.beds
      ensures RowBalanced(t.beds[w], SeedOccupancy[w], WardCount(t.patients, w))
    {
      assert WardBalanced(t, SeedOccupancy, w);
    }
  }

  /** Seeding twice is seeding once: re-running initialisation never overwrites rows. */
  lemma SeedIdempotent(t: Tables)
    ensures Seed(Seed(t)) == Seed(t)
  {
  }

  /** Round trip: a successful assignment followed by revoking the same patient
      restores both tables exactly. */
  lemma AssignThenRevokeRestores(t: Tables, patient: string, ward: string, at: Timestamp)
    requires patient in t.patients || ward in t.beds
    requires Assign(t, patient, ward, at).outcome.BedAssigned?
    ensures Revoke(Assign(t, patient, ward, at).tables, patient) == Step(t, BedRevoked(patient))
  {
  }

  /** Revoking twice: the first call succeeds, the second finds no bed and
      leaves both tables (and so every count) as the first call left them. */
  lemma RevokeTwice(t: Tables, patient: string)
    requires patient in t.patients
    ensures Revoke(t, patient).outcome == BedRevoked(patient)
    ensures var once := Revoke(t, patient).tables;
      Revoke(once, patient) == Step(once, NoBedFound)
  {
  }

  /** Double assignment: after a patient is given a bed, assigning the same
      patient again is rejected and changes nothing, so the ward's occupancy
      rises by exactly one bed, not two. */
  lemma AssignTwice(t: Tables, patient: string, ward: string, at1: Timestamp, at2: Timestamp)
    requires ward in t.beds && patient !in t.patients && t.beds[ward].available > 0
    ensures var first := Assign(t, patient, ward, at1);
      var second := Assign(first.tables, patient, ward, at2);
      && first.outcome == BedAssigned(patient, ward)
      && second == Step(first.tables, AlreadyHasBed)
      && second.tables.beds[ward].occupied == t.beds[ward].occupied + 1
  {
  }

  /** The last bed goes to exactly one of two unassigned patients: the first
      gets it, the second is told there is none, and none is left. */
  lemma LastBedGoesOnce(t: Tables, p1: string, p2: string, ward: string, at1: Timestamp, at2: Timestamp)
    requires ward in t.beds && t.beds[ward].available == 1
    requires p1 != p2 && p1 !in t.patients && p2 !in t.patients
    ensures var first := Assign(t, p1, ward, at1);
      var second := Assign(first.tables, p2, ward, at2);
      && first.outcome == BedAssigned(p1, ward)
      && second.outcome == NoAvailableBeds(ward)
      && second.tables == first.tables
      && second.tables.beds[ward].available == 0
  {
  }

  /** Right after seeding, occupied beds are not backed by assignment rows:
      the ICU reports 46 occupied beds while no patient row names it. This is
      why consistency is stated against the seeded occupancy. */
  lemma SeededOccupancyHasNoRows()
    ensures var t := Seed(EmptyTables);
      && t.beds["ICU"].occupied == 46
      && WardCount(t.patients, "ICU") == 0
      && WardCount(t.patients, "ICU") != t.beds["ICU"].occupied
  {
  }
}
