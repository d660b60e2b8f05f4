/**
 * The task serializer: which fields a task exposes and which a request body may
 * set, the validation of a body (full or partial), the create that stamps the
 * owner and the creation date, and the default update.
 */
module TaskSerializer {
  import opened Wrappers
  import opened Fields
  import opened Models
  import opened Database

  const ID: string := "id"

  /** Meta.fields: the fields of the serialized form. */
  const FIELDS: seq<string> := [ID, TITLE, OWNER, DESCRIPTION, STATUS, CREATION_DATE]

  /** Meta.read_only_fields. */
  const READ_ONLY_FIELDS: set<string> := {OWNER, CREATION_DATE}

  /** The fields a request body can set. */
  const WRITABLE: set<string> := {TITLE, DESCRIPTION, STATUS}

  /** The writable fields are the listed ones less the read-only ones and the automatic primary key. */
  lemma WritableFields()
    ensures WRITABLE == (set f | f in FIELDS) - READ_ONLY_FIELDS - {ID}
  {
    assert forall f :: f in FIELDS <==> f in [ID, TITLE, OWNER, DESCRIPTION, STATUS, CREATION_DATE];
  }

  /**
   * What each writable field accepts, read off the column declarations: a
   * title is non-blank with at most 200 characters, a description non-blank,
   * a status blank or a choice key; none of them accepts null.
   */
  predicate Acceptable(field: string, v: FieldValue) {
    match v
    case Null => false
    case Text(s) =>
      if field == TITLE then 0 < |s| <= TITLE_MAX_LENGTH
      else if field == DESCRIPTION then s != ""
      else s == "" || Some(s) in STATUS_CHOICES
  }

  /**
   * The fields a validation reports: a writable field sent with a value it does
   * not accept, and the title when a full (not partial) update leaves it out.
   * The description and the status are never required: the description column
   * declares a default and the status column is blank=True.
   */
  predicate Offending(payload: Payload, partial: bool, f: string) {
    f in WRITABLE && if f in payload then !Acceptable(f, payload[f]) else f == TITLE && !partial
  }

  /** The column value a validated field holds for the text that was sent. */
  predicate Carries(f: string, sent: FieldValue, v: Value) {
    sent.Text? && if f == STATUS then v.VStatus? && StatusText(v.status) == sent.text else v == VText(sent.text)
  }

  function TitleField(payload: Payload, partial: bool): Result<Option<Value>, FieldError> {
    var r := CharField(payload, TITLE, !partial, false, Some(TITLE_MAX_LENGTH));
    if r.Err? then Err(r.error) else Ok(if r.value.Some? then Some(VText(r.value.value)) else None)
  }

  function DescriptionField(payload: Payload): Result<Option<Value>, FieldError> {
    var r := CharField(payload, DESCRIPTION, false, false, None);
    if r.Err? then Err(r.error) else Ok(if r.value.Some? then Some(VText(r.value.value)) else None)
  }

  function StatusField(payload: Payload): Result<Option<Value>, FieldError> {
    var r := CharField(payload, STATUS, false, true, None);
    if r.Err? then Err(r.error)
    else if r.value.None? then Ok(None)
    else
      match ParseStatus(r.value.value)
      case None => Err(InvalidChoice(r.value.value))
      case Some(st) => Ok(Some(VStatus(st)))
  }

  /** What one field's check means: it fails exactly when the field offends, and yields the sent value, or nothing when the field was left out. */
  ghost predicate FieldOutcome(payload: Payload, partial: bool, f: string, r: Result<Option<Value>, FieldError>) {
    && (r.Err? <==> Offending(payload, partial, f))
    && (r.Ok? ==> (r.value.Some? <==> f in payload))
    && (r.Ok? && r.value.Some? ==> Carries(f, payload[f], r.value.value))
    && (r.Ok? && r.value.Some? ==> if f == STATUS then r.value.value.VStatus? else r.value.value.VText?)
  }

  /** The check of one writable field. */
  function Check(payload: Payload, partial: bool, f: string): (r: Result<Option<Value>, FieldError>)
    requires f in WRITABLE
    ensures FieldOutcome(payload, partial, f, r)
  {
    if f == TITLE then TitleField(payload, partial)
    else if f == DESCRIPTION then DescriptionField(payload)
    else StatusField(payload)
  }

  /**
   * `is_valid()` of the serializer, with `partial` for a PATCH. The body is
   * accepted exactly when no field offends; a rejection names exactly the
   * offending fields; an accepted body yields the writable fields that were
   * sent, carrying the sent values, and never a read-only field.
   */
  function Validate(payload: Payload, partial: bool): (r: Result<Columns, Errors>)
    ensures r.Ok? <==> forall f :: !Offending(payload, partial, f)
    ensures r.Err? ==> forall f :: f in r.error <==> Offending(payload, partial, f)
    ensures r.Ok? ==> WellTyped(r.value) && r.value.Keys == WRITABLE * payload.Keys
    ensures r.Ok? ==> forall f :: f in r.value ==> Carries(f, payload[f], r.value[f])
    ensures r.Ok? ==> ID !in r.value && OWNER !in r.value && CREATION_DATE !in r.value
  {
    var errors := map f | f in WRITABLE && Check(payload, partial, f).Err? :: Check(payload, partial, f).error;
    if errors == map[] then
      assert forall f | f in WRITABLE :: Check(payload, partial, f).Ok? by {
        forall f | f in WRITABLE ensures Check(payload, partial, f).Ok? {
          assert f !in errors;
        }
      }
      Ok(map f | f in WRITABLE && f in payload :: Check(payload, partial, f).value.value)
    else
      Err(errors)
  }

  const MUST_BE_AUTHENTICATED: string := "User must be authenticated to create a task."

  datatype CreateFailure = NotAuthenticated(message: string) | Refused(cause: IntegrityError)

  /**
   * `create(validated_data)`: without a requesting user it raises a validation
   * error and stores nothing; otherwise it sets the creation date to `today`
   * unless one was validated, sets the owner to the user whatever the data
   * holds, and inserts the row. The insert is refused, and nothing stored, when
   * no description was validated.
   */
  method Create(table: TaskTable, validated: Columns, user: Option<UserId>, today: Date)
    returns (r: Result<nat, CreateFailure>)
    requires table.Valid() && WellTyped(validated)
    modifies table
    ensures table.Valid()
    ensures user.None? ==> r == Err(NotAuthenticated(MUST_BE_AUTHENTICATED))
    ensures r.Err? ==> table.rows == old(table.rows) && table.nextId == old(table.nextId)
    ensures user.Some? ==> (r.Ok? <==> DESCRIPTION in validated)
    ensures user.Some? && r.Err? ==> r.error == Refused(NotNullViolation(DESCRIPTION))
    ensures r.Ok? ==> && r.value == old(table.nextId) && r.value !in old(table.rows)
                      && r.value in table.rows
                      && table.rows == old(table.rows)[r.value := table.rows[r.value]]
                      && table.nextId == old(table.nextId) + 1
    ensures r.Ok? ==> var t := table.rows[r.value];
                      && t.owner == user.value
                      && t.creationDate == (if CREATION_DATE in validated then validated[CREATION_DATE].date else today)
                      && t.title == (if TITLE in validated then validated[TITLE].text else "")
                      && t.description == validated[DESCRIPTION].text
                      && t.status == (if STATUS in validated then validated[STATUS].status else Unset)
  {
    if user.None? {
      return Err(NotAuthenticated(MUST_BE_AUTHENTICATED));
    }
    var data := validated;
    data := data[CREATION_DATE := if CREATION_DATE in data then data[CREATION_DATE] else VDate(today)];
    data := data[OWNER := VUser(user.value)];
    var created := table.Create(data);
    if created.Err? {
      return Err(Refused(created.error));
    }
    return Ok(created.value);
  }

  /** The default update of a model serializer: each validated field is assigned to the row, the rest stay. */
  function ApplyChanges(t: Task, c: Columns): (r: Task)
    requires WellTyped(c)
    ensures TITLE !in c ==> r.title == t.title
    ensures OWNER !in c ==> r.owner == t.owner
    ensures DESCRIPTION !in c ==> r.description == t.description
    ensures STATUS !in c ==> r.status == t.status
    ensures CREATION_DATE !in c ==> r.creationDate == t.creationDate
    ensures c == map[] ==> r == t
  {
    Task(
      title := if TITLE in c then c[TITLE].text else t.title,
      owner := if OWNER in c then c[OWNER].user else t.owner,
      description := if DESCRIPTION in c then c[DESCRIPTION].text else t.description,
      status := if STATUS in c then c[STATUS].status else t.status,
      creationDate := if CREATION_DATE in c then c[CREATION_DATE].date else t.creationDate)
  }

  /**
   * An accepted update keeps the owner and the creation date whatever the body
   * holds (both are read-only), takes every writable field that was sent, keeps
   * every one that was not, and keeps the row valid.
   */
  lemma UpdateFollowsPayload(t: Task, payload: Payload, partial: bool)
    requires Validate(payload, partial).Ok?
    ensures var u := ApplyChanges(t, Validate(payload, partial).value);
      && u.owner == t.owner && u.creationDate == t.creationDate
      && (if TITLE in payload then payload[TITLE] == Text(u.title) else u.title == t.title)
      && (if DESCRIPTION in payload then payload[DESCRIPTION] == Text(u.description) else u.description == t.description)
      && (if STATUS in payload then payload[STATUS] == Text(StatusText(u.status)) else u.status == t.status)
      && (ValidTask(t) ==> ValidTask(u))
  {
    var c := Validate(payload, partial).value;
    assert !Offending(payload, partial, TITLE) && !Offending(payload, partial, DESCRIPTION);
    if TITLE in payload { assert Carries(TITLE, payload[TITLE], c[TITLE]); }
    if DESCRIPTION in payload { assert Carries(DESCRIPTION, payload[DESCRIPTION], c[DESCRIPTION]); }
    if STATUS in payload { assert Carries(STATUS, payload[STATUS], c[STATUS]); }
  }

  /** A POST body, validated as a full update, can only be created into a valid row. */
  lemma CreatedRowIsValid(payload: Payload)
    requires Validate(payload, false).Ok?
    ensures var c := Validate(payload, false).value;
      TITLE in c && 0 < |c[TITLE].text| <= TITLE_MAX_LENGTH
      && (DESCRIPTION in c ==> c[DESCRIPTION].text != "")
  {
    var c := Validate(payload, false).value;
    assert !Offending(payload, false, TITLE) && !Offending(payload, false, DESCRIPTION);
    assert Carries(TITLE, payload[TITLE], c[TITLE]);
    if DESCRIPTION in payload { assert Carries(DESCRIPTION, payload[DESCRIPTION], c[DESCRIPTION]); }
  }

  datatype Json = JNum(n: int) | JStr(s: string) | JDate(d: Date)

  /** The serialized form of a task, field name to value. */
  type TaskJson = map<string, Json>

  /** `serializer.data` for one row: exactly the fields of Meta.fields. */
  function Serialize(id: nat, t: Task): (r: TaskJson)
    ensures r.Keys == set f | f in FIELDS
  {
    map[
      ID := JNum(id),
      TITLE := JStr(t.title),
      OWNER := JNum(t.owner),
      DESCRIPTION := JStr(t.description),
      STATUS := JStr(StatusText(t.status)),
      CREATION_DATE := JDate(t.creationDate)
    ]
  }

  /** The serialized form loses nothing: two rows serialize alike only if they are the same row. */
  lemma SerializeInjective(id1: nat, t1: Task, id2: nat, t2: Task)
    requires Serialize(id1, t1) == Serialize(id2, t2)
    ensures id1 == id2 && t1 == t2
  {
    var a, b := Serialize(id1, t1), Serialize(id2, t2);
    assert a[ID] == b[ID] && a[TITLE] == b[TITLE] && a[OWNER] == b[OWNER];
    assert a[DESCRIPTION] == b[DESCRIPTION] && a[STATUS] == b[STATUS] && a[CREATION_DATE] == b[CREATION_DATE];
    StatusRoundTrip(t1.status);
    StatusRoundTrip(t2.status);
  }
}
