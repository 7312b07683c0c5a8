/**
 * Medication records (internal/handlers/medicine.go): every record belongs
 * to the user who created it, and every lookup, update and delete is scoped
 * to the authenticated user's id.
 */
module Medicine {
  import opened Wrappers

  /** A medications row; `kind` is the "type" column (1 medicine, 2 injectable, 3 other). */
  datatype Medication = Medication(
    id: nat,
    userId: nat,
    kind: int,
    name: string,
    dose: string,
    scheduleType: string,
    description: string)

  const Kinds: set<int> := {1, 2, 3}
  const ScheduleTypes: set<string> := {"hourly", "daily", "weekly", "monthly"}

  /** The body of a create request; it has no owner field. */
  datatype CreateRequest = CreateRequest(kind: int, name: string, dose: string, scheduleType: string, description: string)

  /** The body of an update request; a zero or empty field means "keep". */
  datatype UpdateRequest = UpdateRequest(kind: int, name: string, dose: string, scheduleType: string, description: string)

  /** The binding rules of Create: a known type and schedule, and a name and dose. */
  predicate ValidCreate(req: CreateRequest) {
    req.kind in Kinds && req.name != "" && req.dose != "" && req.scheduleType in ScheduleTypes
  }

  /** The requested string when it is non-empty, the current one otherwise. */
  function Pick(current: string, requested: string): string {
    if requested != "" then requested else current
  }

  /**
   * The field merge of Update: a field takes the requested value when that
   * value is non-zero (type) or non-empty (strings) and keeps its value
   * otherwise; the id and the owner never change.
   */
  function Merge(med: Medication, req: UpdateRequest): (r: Medication)
    ensures r.id == med.id && r.userId == med.userId
    ensures r.kind != med.kind ==> r.kind == req.kind && req.kind != 0
    ensures r.name != med.name ==> r.name == req.name && req.name != ""
    ensures r.dose != med.dose ==> r.dose == req.dose && req.dose != ""
    ensures r.scheduleType != med.scheduleType ==> r.scheduleType == req.scheduleType && req.scheduleType != ""
    ensures r.description != med.description ==> r.description == req.description && req.description != ""
    ensures req.kind != 0 ==> r.kind == req.kind
    ensures req.name != "" ==> r.name == req.name
    ensures req.dose != "" ==> r.dose == req.dose
    ensures req.scheduleType != "" ==> r.scheduleType == req.scheduleType
    ensures req.description != "" ==> r.description == req.description
  {
    med.(kind := if req.kind != 0 then req.kind else med.kind,
         name := Pick(med.name, req.name),
         dose := Pick(med.dose, req.dose),
         scheduleType := Pick(med.scheduleType, req.scheduleType),
         description := Pick(med.description, req.description))
  }

  /** Applying the same update twice is applying it once. */
  lemma MergeIdempotent(med: Medication, req: UpdateRequest)
    ensures Merge(Merge(med, req), req) == Merge(med, req)
  {
  }

  /** An update request with every field empty changes nothing. */
  lemma MergeEmptyIsIdentity(med: Medication)
    ensures Merge(med, UpdateRequest(0, "", "", "", "")) == med
  {
  }

  /**
   * Update does not re-check the domains Create enforces: a valid record can
   * be given a type outside {1, 2, 3} and an unknown schedule.
   */
  lemma MergeSkipsCreateValidation()
    ensures var med := Medication(1, 7, 1, "aspirin", "100mg", "daily", "");
      var r := Merge(med, UpdateRequest(9, "", "", "yearly", ""));
      ValidCreate(CreateRequest(med.kind, med.name, med.dose, med.scheduleType, med.description)) &&
      r.kind !in Kinds && r.scheduleType !in ScheduleTypes
  {
  }

  /** The medications table. */
  class MedicationTable {
    var rows: map<nat, Medication>
    /** The next primary key the database hands out. */
    var nextId: nat

    ghost predicate Valid()
      reads this
    {
      forall k | k in rows :: rows[k].id == k && k < nextId
    }

    constructor ()
      ensures Valid() && rows == map[] && nextId == 1
    {
      rows := map[];
      nextId := 1;
    }

    /** `WHERE user_id = ? AND id = ?`: the record with this id, if this user owns it. */
    function Owned(userId: nat, id: nat): Option<Medication>
      reads this
    {
      if id in rows && rows[id].userId == userId then Some(rows[id]) else None
    }
  }

  datatype CreateReply = CreateBadRequest | Created(med: Medication)
  datatype GetReply = GetNotFound | Found(med: Medication)
  datatype UpdateReply = UpdateNotFound | Updated(med: Medication)

  /** The record Create inserts: the owner is the authenticated user. */
  function NewMedication(id: nat, userId: nat, req: CreateRequest): Medication {
    Medication(id, userId, req.kind, req.name, req.dose, req.scheduleType, req.description)
  }

  /** MedicineHandler: the medication endpoints over one table. */
  class MedicineHandler {
    const table: MedicationTable

    constructor (table: MedicationTable)
      ensures this.table == table
    {
      this.table := table;
    }

    /** Create: validates the request and inserts a record owned by `userId`. */
    method Create(userId: nat, req: CreateRequest) returns (r: CreateReply)
      requires table.Valid()
      modifies table
      ensures table.Valid()
      ensures !ValidCreate(req) ==>
        r == CreateBadRequest && table.rows == old(table.rows) && table.nextId == old(table.nextId)
      ensures ValidCreate(req) ==>
        && r == Created(NewMedication(old(table.nextId), userId, req))
        && old(table.nextId) !in old(table.rows)
        && table.rows == old(table.rows)[old(table.nextId) := r.med]
        && table.nextId == old(table.nextId) + 1
    {
      if !ValidCreate(req) {
        return CreateBadRequest;
      }
      var med := NewMedication(table.nextId, userId, req);
      table.rows := table.rows[table.nextId := med];
      table.nextId := table.nextId + 1;
      r := Created(med);
    }

    /** List: the user's records, in ascending id, and no one else's. */
    method List(userId: nat) returns (r: seq<Medication>)
      requires table.Valid()
      ensures forall i :: 0 <= i < |r| ==>
        r[i].id in table.rows && table.rows[r[i].id] == r[i] && r[i].userId == userId
      ensures forall k :: k in table.rows && table.rows[k].userId == userId ==> table.rows[k] in r
      ensures forall i, j :: 0 <= i < j < |r| ==> r[i].id < r[j].id
    {
      r := [];
      var k := 0;
      while k < table.nextId
        invariant k <= table.nextId
        invariant forall i :: 0 <= i < |r| ==>
          r[i].id in table.rows && table.rows[r[i].id] == r[i] && r[i].userId == userId
        invariant forall i :: 0 <= i < |r| ==> r[i].id < k
        invariant forall j :: j < k && j in table.rows && table.rows[j].userId == userId ==> table.rows[j] in r
        invariant forall i, j :: 0 <= i < j < |r| ==> r[i].id < r[j].id
      {
        if k in table.rows && table.rows[k].userId == userId {
          r := r + [table.rows[k]];
        }
        k := k + 1;
      }
    }

    /** Get: found only when the record exists and belongs to `userId`. */
    method Get(userId: nat, id: nat) returns (r: GetReply)
      ensures r.Found? <==> id in table.rows && table.rows[id].userId == userId
      ensures r.Found? ==> r.med == table.rows[id]
    {
      match table.Owned(userId, id)
      case Some(med) => r := Found(med);
      case None => r := GetNotFound;
    }

    /**
     * Update: a missing or foreign record is "not found" and nothing is
     * saved; otherwise the merged record replaces it.
     */
    method Update(userId: nat, id: nat, req: UpdateRequest) returns (r: UpdateReply)
      requires table.Valid()
      modifies table
      ensures table.Valid() && table.nextId == old(table.nextId)
      ensures old(table.Owned(userId, id)).None? ==> r == UpdateNotFound && table.rows == old(table.rows)
      ensures old(table.Owned(userId, id)).Some? ==>
        && r == Updated(Merge(old(table.rows)[id], req))
        && table.rows == old(table.rows)[id := r.med]
      ensures forall k :: k in old(table.rows) && old(table.rows)[k].userId != userId ==>
        k in table.rows && table.rows[k] == old(table.rows)[k]
    {
      match table.Owned(userId, id)
      case None =>
        r := UpdateNotFound;
      case Some(med) =>
        var merged := Merge(med, req);
        table.rows := table.rows[id := merged];
        r := Updated(merged);
    }

    /** Delete: removes the record only when `userId` owns it, and answers 204 either way. */
    method Delete(userId: nat, id: nat) returns (status: int)
      requires table.Valid()
      modifies table
      ensures table.Valid() && table.nextId == old(table.nextId)
      ensures status == 204
      ensures table.rows == if old(table.Owned(userId, id)).Some? then old(table.rows) - {id} else old(table.rows)
      ensures forall k :: k in old(table.rows) && old(table.rows)[k].userId != userId ==>
        k in table.rows && table.rows[k] == old(table.rows)[k]
    {
      if table.Owned(userId, id).Some? {
        table.rows := table.rows - {id};
      }
      status := 204;
    }
  }
}
