/**
 * The Task record of the viewer application: its columns, the status choices
 * and the constraints the columns declare.
 */
module Models {
  import opened Wrappers

  /** Primary key of a row of the user table. */
  type UserId = nat

  /** A calendar date; which day is "today" is a parameter of the operations that need it. */
  datatype Date = Date(year: int, month: nat, day: nat)

  const INQU: string := "In queue"
  const PRGR: string := "In progress"
  const CMPL: string := "Completed"
  const PSPD: string := "Postponed"

  /** The status choices: the key None is the "select status" entry, the blank choice. */
  const STATUS_CHOICES: map<Option<string>, string> := map[
    None := "select status",
    Some(INQU) := "In queue",
    Some(PRGR) := "In progress",
    Some(CMPL) := "Completed",
    Some(PSPD) := "Postponed"
  ]

  const TITLE_MAX_LENGTH: nat := 200
  const STATUS_MAX_LENGTH: nat := 30

  // Column names, as they appear in request bodies and in the serialized form.
  const TITLE: string := "title"
  const OWNER: string := "owner"
  const DESCRIPTION: string := "description"
  const STATUS: string := "status"
  const CREATION_DATE: string := "creation_date"
  const COLUMNS: set<string> := {TITLE, OWNER, DESCRIPTION, STATUS, CREATION_DATE}

  /** What the status column can hold: blank (the None choice) or one of the four keys. */
  datatype Status = Unset | InQueue | InProgress | Completed | Postponed

  /** The text stored in the status column. */
  function StatusText(s: Status): (t: string)
    ensures |t| <= STATUS_MAX_LENGTH
    ensures t == "" <==> s == Unset
    ensures s != Unset ==> Some(t) in STATUS_CHOICES && STATUS_CHOICES[Some(t)] == t
  {
    match s
    case Unset => ""
    case InQueue => INQU
    case InProgress => PRGR
    case Completed => CMPL
    case Postponed => PSPD
  }

  /** Reads a status text: the column is blank=True, so "" is accepted; otherwise it must be a choice key. */
  function ParseStatus(text: string): (r: Option<Status>)
    ensures r.Some? <==> text == "" || Some(text) in STATUS_CHOICES
    ensures r.Some? ==> StatusText(r.value) == text
  {
    if text == "" then Some(Unset)
    else if text == INQU then Some(InQueue)
    else if text == PRGR then Some(InProgress)
    else if text == CMPL then Some(Completed)
    else if text == PSPD then Some(Postponed)
    else None
  }

  /** Every status is stored as a text that reads back as itself. */
  lemma StatusRoundTrip(s: Status)
    ensures ParseStatus(StatusText(s)) == Some(s)
  {
  }

  /** A task row. Its primary key is the key under which the task table stores it. */
  datatype Task = Task(title: string, owner: UserId, description: string, status: Status, creationDate: Date)

  /**
   * A row that came in through the API: a non-blank title of at most 200
   * characters and a non-blank description. The status is a choice by its type,
   * the creation date and the owner are present by their types.
   */
  predicate ValidTask(t: Task) {
    0 < |t.title| <= TITLE_MAX_LENGTH && t.description != ""
  }

  /** A value for one column, as `Task.objects.create` receives it by keyword. */
  datatype Value = VText(text: string) | VStatus(status: Status) | VUser(user: UserId) | VDate(date: Date)

  type Columns = map<string, Value>

  /** Every key names a column and carries a value of that column's type. */
  predicate WellTyped(c: Columns) {
    && (forall k :: k in c ==> k in COLUMNS)
    && (TITLE in c ==> c[TITLE].VText?)
    && (DESCRIPTION in c ==> c[DESCRIPTION].VText?)
    && (STATUS in c ==> c[STATUS].VStatus?)
    && (OWNER in c ==> c[OWNER].VUser?)
    && (CREATION_DATE in c ==> c[CREATION_DATE].VDate?)
  }
}
