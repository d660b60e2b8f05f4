/**
 * The rows the object-relational mapper keeps: the task table, the user table
 * and the refresh-token blacklist. Each table is a map from primary key to row
 * plus the next key its auto-increment counter hands out.
 */
module Database {
  import opened Wrappers
  import opened Models

  /** The database refused a row: a NOT NULL column would have been NULL. */
  datatype IntegrityError = NotNullViolation(column: string)

  /**
   * The row `Task.objects.create(**c)` builds. A column left out takes its
   * declared default: title and status have none and fall back to the empty
   * text (status blank), while description, creation_date and owner declare
   * default=None on a NOT NULL column, so leaving one of them out is refused.
   */
  function NewRow(c: Columns): (r: Result<Task, IntegrityError>)
    requires WellTyped(c)
    ensures r.Ok? <==> DESCRIPTION in c && CREATION_DATE in c && OWNER in c
    ensures r.Err? ==> r.error.column in {DESCRIPTION, CREATION_DATE, OWNER} && r.error.column !in c
    ensures r.Ok? ==> && r.value.title == (if TITLE in c then c[TITLE].text else "")
                      && r.value.description == c[DESCRIPTION].text
                      && r.value.status == (if STATUS in c then c[STATUS].status else Unset)
                      && r.value.owner == c[OWNER].user
                      && r.value.creationDate == c[CREATION_DATE].date
  {
    if DESCRIPTION !in c then Err(NotNullViolation(DESCRIPTION))
    else if CREATION_DATE !in c then Err(NotNullViolation(CREATION_DATE))
    else if OWNER !in c then Err(NotNullViolation(OWNER))
    else
      Ok(Task(
        title := if TITLE in c then c[TITLE].text else "",
        owner := c[OWNER].user,
        description := c[DESCRIPTION].text,
        status := if STATUS in c then c[STATUS].status else Unset,
        creationDate := c[CREATION_DATE].date))
  }

  /**
   * The keys below `n` of the rows whose owner is `owner`, in ascending order:
   * the result of `Task.objects.filter(owner=owner)` in primary-key order.
   */
  function OwnedBy(rows: map<nat, Task>, owner: UserId, n: nat): (ids: seq<nat>)
    ensures forall id :: id in ids <==> id < n && id in rows && rows[id].owner == owner
    ensures forall i, j :: 0 <= i < j < |ids| ==> ids[i] < ids[j]
    decreases n
  {
    if n == 0 then []
    else
      var below := OwnedBy(rows, owner, n - 1);
      assert forall i :: 0 <= i < |below| ==> below[i] < n - 1 by {
        forall i | 0 <= i < |below| ensures below[i] < n - 1 {
          assert below[i] in below;
        }
      }
      if n - 1 in rows && rows[n - 1].owner == owner then below + [n - 1] else below
  }

  class TaskTable {
    var rows: map<nat, Task>
    var nextId: nat

    /** Keys are positive and below the counter, so the next key is always unused. */
    ghost predicate Valid()
      reads this
    {
      0 < nextId && forall id :: id in rows ==> 0 < id < nextId
    }

    constructor ()
      ensures Valid() && rows == map[] && nextId == 1
    {
      rows := map[];
      nextId := 1;
    }

    /** `Task.objects.create(**c)`: inserts the row under a fresh key, or refuses it and changes nothing. */
    method Create(c: Columns) returns (r: Result<nat, IntegrityError>)
      requires Valid() && WellTyped(c)
      modifies this
      ensures Valid()
      ensures r.Err? ==> NewRow(c) == Err(r.error) && rows == old(rows) && nextId == old(nextId)
      ensures r.Ok? ==> && NewRow(c).Ok?
                        && r.value == old(nextId) && r.value !in old(rows)
                        && rows == old(rows)[r.value := NewRow(c).value]
                        && nextId == old(nextId) + 1
    {
      var row := NewRow(c);
      if row.Err? {
        r := Err(row.error);
        return;
      }
      r := Ok(nextId);
      rows := rows[nextId := row.value];
      nextId := nextId + 1;
    }

    /** `instance.save()` on a row that was fetched: overwrites it. */
    method Save(id: nat, t: Task)
      requires Valid() && id in rows
      modifies this`rows
      ensures Valid() && rows == old(rows)[id := t]
    {
      rows := rows[id := t];
    }

    /** `instance.delete()` on a row that was fetched: removes it for good. */
    method Delete(id: nat)
      requires Valid() && id in rows
      modifies this`rows
      ensures Valid() && rows == old(rows) - {id}
    {
      rows := rows - {id};
    }
  }

  /**
   * A stored password. Hashing and checking are library code; the model uses an
   * ideal hasher, whose check accepts exactly the password that was hashed.
   */
  datatype PasswordHash = Hashed(password: string)

  /** `user.check_password(candidate)`: an absent password (None) is never accepted. */
  function CheckPassword(h: PasswordHash, candidate: Option<string>): (ok: bool)
    ensures ok <==> candidate == Some(h.password)
  {
    candidate.Some? && candidate.value == h.password
  }

  datatype User = User(username: string, email: string, password: PasswordHash)

  /** The unique constraint on usernames. */
  ghost predicate UniqueUsernames(rows: map<nat, User>) {
    forall i, j :: i in rows && j in rows && rows[i].username == rows[j].username ==> i == j
  }

  /** No stored user is called `name`. */
  ghost predicate NameFree(rows: map<nat, User>, name: string) {
    forall id :: id in rows ==> rows[id].username != name
  }

  /** The key below `n` of a user named `name`, if there is one. */
  function FindUsername(rows: map<nat, User>, name: string, n: nat): (r: Option<nat>)
    ensures r.Some? ==> r.value < n && r.value in rows && rows[r.value].username == name
    ensures r.None? ==> forall id :: id < n && id in rows ==> rows[id].username != name
    decreases n
  {
    if n == 0 then None
    else if n - 1 in rows && rows[n - 1].username == name then Some(n - 1)
    else FindUsername(rows, name, n - 1)
  }

  class UserTable {
    var rows: map<nat, User>
    var nextId: nat

    ghost predicate Valid()
      reads this
    {
      0 < nextId && forall id :: id in rows ==> 0 < id < nextId
    }

    constructor ()
      ensures Valid() && rows == map[] && nextId == 1
    {
      rows := map[];
      nextId := 1;
    }

    /** `User.objects.filter(username=name)`: the user of that name, if any. */
    function Find(name: string): (r: Option<nat>)
      reads this
      requires Valid()
      ensures r.Some? ==> r.value in rows && rows[r.value].username == name
      ensures r.None? <==> NameFree(rows, name)
    {
      FindUsername(rows, name, nextId)
    }

    /** `User.objects.create_user(...)`: inserts a user, with the password hashed, under a fresh key. */
    method CreateUser(username: string, email: string, password: string) returns (id: nat)
      requires Valid()
      modifies this
      ensures Valid()
      ensures id == old(nextId) && id !in old(rows) && nextId == old(nextId) + 1
      ensures rows == old(rows)[id := User(username, email, Hashed(password))]
    {
      id := nextId;
      rows := rows[id := User(username, email, Hashed(password))];
      nextId := nextId + 1;
    }

    /** `user.delete()`. */
    method Delete(id: nat)
      requires Valid() && id in rows
      modifies this`rows
      ensures Valid() && rows == old(rows) - {id}
    {
      rows := rows - {id};
    }
  }

  /** The refresh tokens that were blacklisted. */
  class TokenBlacklist {
    var revoked: set<string>

    constructor ()
      ensures revoked == {}
    {
      revoked := {};
    }

    /** `token.blacklist()`. */
    method Add(token: string)
      modifies this
      ensures revoked == old(revoked) + {token}
    {
      revoked := revoked + {token};
    }
  }
}
