/**
 * The task handlers: create, list the caller's tasks, partial update, full
 * update and delete. The caller is the authenticated user. Every update and
 * delete first looks the task up by id and owner together, so a task of
 * another user answers exactly like a task that does not exist.
 */
module TaskViews {
  import opened Wrappers
  import opened Fields
  import opened Models
  import opened Database
  import opened TaskSerializer

  const NOT_FOUND: string := "Task not found or unauthorized"
  const DELETED: string := "Task deleted successfully"

  datatype Response =
    | Created(task: TaskJson)
    | Updated(task: TaskJson)
    | Listed(tasks: seq<TaskJson>)
    | NotFound(error: string)
    | Invalid(errors: Errors)
    | Deleted(message: string)
    | ServerError(cause: IntegrityError)

  /** The HTTP status of a response; an error the handler does not catch is answered 500 by the framework. */
  function Code(r: Response): nat {
    match r
    case Created(_) => 201
    case Updated(_) => 200
    case Listed(_) => 200
    case NotFound(_) => 404
    case Invalid(_) => 400
    case Deleted(_) => 204
    case ServerError(_) => 500
  }

  ghost predicate AllValid(rows: map<nat, Task>) {
    forall id :: id in rows ==> ValidTask(rows[id])
  }

  /** The lookup `filter(id=pk, owner=caller).first()` finds a row. */
  predicate Owns(rows: map<nat, Task>, pk: nat, caller: UserId) {
    pk in rows && rows[pk].owner == caller
  }

  /** Rows of other owners stay as they were, and every new or changed row belongs to the caller. */
  ghost predicate Isolated(before: map<nat, Task>, after: map<nat, Task>, caller: UserId) {
    && (forall id :: id in before && before[id].owner != caller ==> id in after && after[id] == before[id])
    && (forall id :: id in after && (id !in before || after[id] != before[id]) ==> after[id].owner == caller)
  }

  /** A row that is still there keeps its owner and its creation date. */
  ghost predicate StampsKept(before: map<nat, Task>, after: map<nat, Task>) {
    forall id :: id in before && id in after ==>
      after[id].owner == before[id].owner && after[id].creationDate == before[id].creationDate
  }

  /** The foreign key of the owner column: every task's owner is a stored user. */
  ghost predicate OwnersExist(tasks: map<nat, Task>, users: map<nat, User>) {
    forall id :: id in tasks ==> tasks[id].owner in users
  }

  /**
   * A handler run for a stored user keeps every owner a stored user: it only
   * writes rows of the caller and leaves every other row as it was.
   */
  lemma HandlerKeepsOwners(before: map<nat, Task>, after: map<nat, Task>, users: map<nat, User>, caller: UserId)
    requires OwnersExist(before, users) && caller in users
    requires Isolated(before, after, caller)
    ensures OwnersExist(after, users)
  {
    forall id | id in after ensures after[id].owner in users {
      if id !in before || after[id] != before[id] {
        assert after[id].owner == caller;
      } else {
        assert before[id].owner in users;
      }
    }
  }

  /**
   * Registration keeps every owner a stored user: storing a user removes none,
   * and the weak-password rollback removes only the key it has just stored.
   */
  lemma RegistrationKeepsOwners(tasks: map<nat, Task>, users: map<nat, User>, id: nat, u: User)
    requires OwnersExist(tasks, users) && id !in users
    ensures OwnersExist(tasks, users[id := u])
    ensures OwnersExist(tasks, users[id := u] - {id})
  {
    forall k | k in tasks ensures tasks[k].owner in users[id := u] - {id} {
      assert tasks[k].owner in users;
    }
  }

  /**
   * POST: validates the body as a full create. A rejected body answers 400 with
   * the validation errors and stores nothing; an accepted one stores exactly one
   * new row, owned by the caller and dated today, and answers 201 with it. A
   * body without a description passes validation (the column declares a
   * default) but the insert is refused, nothing is stored, and the framework
   * answers 500.
   */
  method Post(table: TaskTable, caller: UserId, payload: Payload, today: Date) returns (resp: Response)
    requires table.Valid() && AllValid(table.rows)
    modifies table
    ensures table.Valid() && AllValid(table.rows)
    ensures Isolated(old(table.rows), table.rows, caller) && StampsKept(old(table.rows), table.rows)
    ensures resp.Created? || resp.Invalid? || resp.ServerError?
    ensures resp.Invalid? <==> Validate(payload, false).Err?
    ensures resp.Invalid? ==> resp.errors == Validate(payload, false).error
    ensures resp.ServerError? <==> Validate(payload, false).Ok? && DESCRIPTION !in payload
    ensures resp.ServerError? ==> resp.cause == NotNullViolation(DESCRIPTION)
    ensures !resp.Created? ==> table.rows == old(table.rows)
    ensures resp.Created? ==>
      var id := old(table.nextId);
      && id !in old(table.rows) && id in table.rows && table.nextId == id + 1
      && table.rows == old(table.rows)[id := table.rows[id]]
      && table.rows[id].owner == caller
      && table.rows[id].creationDate == today
      && TITLE in payload && payload[TITLE] == Text(table.rows[id].title)
      && DESCRIPTION in payload && payload[DESCRIPTION] == Text(table.rows[id].description)
      && (if STATUS in payload then payload[STATUS] == Text(StatusText(table.rows[id].status))
          else table.rows[id].status == Unset)
      && resp.task == Serialize(id, table.rows[id])
  {
    var v := Validate(payload, false);
    if v.Err? {
      return Invalid(v.error);
    }
    CreatedRowIsValid(payload);
    assert TITLE in v.value && Carries(TITLE, payload[TITLE], v.value[TITLE]);
    assert DESCRIPTION in v.value ==> Carries(DESCRIPTION, payload[DESCRIPTION], v.value[DESCRIPTION]);
    assert STATUS in v.value ==> Carries(STATUS, payload[STATUS], v.value[STATUS]);
    var created := TaskSerializer.Create(table, v.value, Some(caller), today);
    if created.Err? {
      return ServerError(created.error.cause);
    }
    var id := created.value;
    resp := Created(Serialize(id, table.rows[id]));
  }

  /** The serialized forms of the rows with keys `ids`, in that order. */
  function SerializeRows(rows: map<nat, Task>, ids: seq<nat>): (items: seq<TaskJson>)
    requires forall k :: 0 <= k < |ids| ==> ids[k] in rows
    ensures |items| == |ids|
    ensures forall k :: 0 <= k < |ids| ==> items[k] == Serialize(ids[k], rows[ids[k]])
  {
    seq(|ids|, k requires 0 <= k < |ids| => Serialize(ids[k], rows[ids[k]]))
  }

  /** The listing of `caller`'s rows: their keys below `n` in ascending order, serialized. */
  function Listing(rows: map<nat, Task>, caller: UserId, n: nat): seq<TaskJson> {
    var ids := OwnedBy(rows, caller, n);
    assert forall k :: 0 <= k < |ids| ==> ids[k] in ids;
    SerializeRows(rows, ids)
  }

  /** Every row of the caller is listed. */
  lemma ListingComplete(rows: map<nat, Task>, caller: UserId, n: nat, id: nat)
    requires forall i :: i in rows ==> i < n
    requires Owns(rows, id, caller)
    ensures var items := Listing(rows, caller, n);
      exists k :: 0 <= k < |items| && items[k] == Serialize(id, rows[id])
  {
    var ids := OwnedBy(rows, caller, n);
    assert id in ids;
    var k :| 0 <= k < |ids| && ids[k] == id;
    assert Listing(rows, caller, n)[k] == Serialize(id, rows[id]);
  }

  /** `item` is the serialized form of a row of `caller`. */
  ghost predicate OwnRow(rows: map<nat, Task>, caller: UserId, item: TaskJson) {
    exists id :: Owns(rows, id, caller) && item == Serialize(id, rows[id])
  }

  /** Only rows of the caller are listed. */
  lemma ListingSound(rows: map<nat, Task>, caller: UserId, n: nat, k: nat)
    requires k < |Listing(rows, caller, n)|
    ensures OwnRow(rows, caller, Listing(rows, caller, n)[k])
  {
    var ids := OwnedBy(rows, caller, n);
    assert ids[k] in ids;
    assert Owns(rows, ids[k], caller) && Listing(rows, caller, n)[k] == Serialize(ids[k], rows[ids[k]]);
  }

  /** No row is listed twice. */
  lemma ListingDistinct(rows: map<nat, Task>, caller: UserId, n: nat, i: nat, j: nat)
    requires i < j < |Listing(rows, caller, n)|
    ensures Listing(rows, caller, n)[i] != Listing(rows, caller, n)[j]
  {
    var ids := OwnedBy(rows, caller, n);
    assert ids[i] in ids && ids[j] in ids;
    if Listing(rows, caller, n)[i] == Listing(rows, caller, n)[j] {
      SerializeInjective(ids[i], rows[ids[i]], ids[j], rows[ids[j]]);
    }
  }

  /**
   * GET: the caller's tasks, serialized, in primary-key order. Every task of the
   * caller is listed once, and nothing else is.
   */
  method Get(table: TaskTable, caller: UserId) returns (resp: Response)
    requires table.Valid()
    ensures resp == Listed(Listing(table.rows, caller, table.nextId))
    ensures forall id :: Owns(table.rows, id, caller) ==>
      exists k :: 0 <= k < |resp.tasks| && resp.tasks[k] == Serialize(id, table.rows[id])
    ensures forall k :: 0 <= k < |resp.tasks| ==> OwnRow(table.rows, caller, resp.tasks[k])
    ensures forall i, j :: 0 <= i < j < |resp.tasks| ==> resp.tasks[i] != resp.tasks[j]
  {
    resp := Listed(Listing(table.rows, caller, table.nextId));
    forall id | Owns(table.rows, id, caller)
      ensures exists k :: 0 <= k < |resp.tasks| && resp.tasks[k] == Serialize(id, table.rows[id])
    {
      ListingComplete(table.rows, caller, table.nextId, id);
    }
    forall k | 0 <= k < |resp.tasks| ensures OwnRow(table.rows, caller, resp.tasks[k]) {
      ListingSound(table.rows, caller, table.nextId, k);
    }
    forall i, j | 0 <= i < j < |resp.tasks| ensures resp.tasks[i] != resp.tasks[j] {
      ListingDistinct(table.rows, caller, table.nextId, i, j);
    }
  }

  /**
   * PATCH: a row the caller does not own, present or not, answers 404 and
   * nothing changes; a body rejected as a partial update answers 400 and
   * nothing changes; otherwise the validated fields are written to the row and
   * the response carries it.
   */
  method Patch(table: TaskTable, caller: UserId, pk: nat, payload: Payload) returns (resp: Response)
    requires table.Valid() && AllValid(table.rows)
    modifies table`rows
    ensures table.Valid() && AllValid(table.rows)
    ensures Isolated(old(table.rows), table.rows, caller) && StampsKept(old(table.rows), table.rows)
    ensures resp.NotFound? || resp.Invalid? || resp.Updated?
    ensures resp.NotFound? <==> !Owns(old(table.rows), pk, caller)
    ensures resp.NotFound? ==> resp.error == NOT_FOUND
    ensures resp.Invalid? <==> Owns(old(table.rows), pk, caller) && Validate(payload, true).Err?
    ensures resp.Invalid? ==> resp.errors == Validate(payload, true).error
    ensures !resp.Updated? ==> table.rows == old(table.rows)
    ensures resp.Updated? ==>
      && Owns(old(table.rows), pk, caller) && Validate(payload, true).Ok?
      && table.rows == old(table.rows)[pk := ApplyChanges(old(table.rows)[pk], Validate(payload, true).value)]
      && resp.task == Serialize(pk, table.rows[pk])
  {
    if !Owns(table.rows, pk, caller) {
      return NotFound(NOT_FOUND);
    }
    var v := Validate(payload, true);
    if v.Err? {
      return Invalid(v.error);
    }
    UpdateFollowsPayload(table.rows[pk], payload, true);
    var t := ApplyChanges(table.rows[pk], v.value);
    table.Save(pk, t);
    resp := Updated(Serialize(pk, t));
  }

  /**
   * PUT: as PATCH, but the body is validated as a full update, so a body
   * without a title is rejected. Fields that are not required and not sent
   * (description, status) keep their values.
   */
  method Put(table: TaskTable, caller: UserId, pk: nat, payload: Payload) returns (resp: Response)
    requires table.Valid() && AllValid(table.rows)
    modifies table`rows
    ensures table.Valid() && AllValid(table.rows)
    ensures Isolated(old(table.rows), table.rows, caller) && StampsKept(old(table.rows), table.rows)
    ensures resp.NotFound? || resp.Invalid? || resp.Updated?
    ensures resp.NotFound? <==> !Owns(old(table.rows), pk, caller)
    ensures resp.NotFound? ==> resp.error == NOT_FOUND
    ensures resp.Invalid? <==> Owns(old(table.rows), pk, caller) && Validate(payload, false).Err?
    ensures resp.Invalid? ==> resp.errors == Validate(payload, false).error
    ensures !resp.Updated? ==> table.rows == old(table.rows)
    ensures resp.Updated? ==>
      && Owns(old(table.rows), pk, caller) && Validate(payload, false).Ok?
      && table.rows == old(table.rows)[pk := ApplyChanges(old(table.rows)[pk], Validate(payload, false).value)]
      && resp.task == Serialize(pk, table.rows[pk])
  {
    if !Owns(table.rows, pk, caller) {
      return NotFound(NOT_FOUND);
    }
    var v := Validate(payload, false);
    if v.Err? {
      return Invalid(v.error);
    }
    UpdateFollowsPayload(table.rows[pk], payload, false);
    var t := ApplyChanges(table.rows[pk], v.value);
    table.Save(pk, t);
    resp := Updated(Serialize(pk, t));
  }

  /**
   * DELETE: a row the caller does not own, present or not, answers 404 and
   * nothing changes; otherwise exactly that row is removed and the answer is 204.
   */
  method Delete(table: TaskTable, caller: UserId, pk: nat) returns (resp: Response)
    requires table.Valid() && AllValid(table.rows)
    modifies table`rows
    ensures table.Valid() && AllValid(table.rows)
    ensures Isolated(old(table.rows), table.rows, caller) && StampsKept(old(table.rows), table.rows)
    ensures resp.NotFound? <==> !Owns(old(table.rows), pk, caller)
    ensures resp.NotFound? ==> resp.error == NOT_FOUND && table.rows == old(table.rows)
    ensures !resp.NotFound? ==> resp == Deleted(DELETED) && table.rows == old(table.rows) - {pk}
    ensures !Owns(table.rows, pk, caller)
  {
    if !Owns(table.rows, pk, caller) {
      return NotFound(NOT_FOUND);
    }
    table.Delete(pk);
    resp := Deleted(DELETED);
  }
}
