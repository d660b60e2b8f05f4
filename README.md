# Planner backend: task table and account rules

This project models the request handlers of the Planner backend. The backend
is a Django REST Framework service in which users register, log in and log out
with JSON web tokens, and keep a private list of tasks.

Two parts are modelled:

- **The owner-scoped task table.** `TaskTable` is a class holding a map from
  primary key to `Task` row, plus the auto-increment counter.
  - There is one method per handler: `Post`, `Get`, `Patch`, `Put` and `Delete`.
  - Each update or delete first looks the row up with `id == pk && owner == caller`.
    A miss answers 404 "Task not found or unauthorized" and changes nothing,
    whether the key is absent or belongs to another user.
  - On create, the serializer stamps the owner from the caller and the creation
    date server-side. Both fields are read-only, so no request body reaches them.
- **The account rules.** `UserTable` holds the users; `TokenBlacklist` holds the
  revoked refresh tokens.
  - Registration validates the body, refuses a taken username and mismatched
    passwords, stores the user, and deletes that user again when the
    password-strength validators object.
  - Login gives one identical 401 body for an unknown username and for a wrong
    password.
  - Logout refuses a missing token, and refuses a token that is invalid or
    already revoked. Any other token it revokes.

## Modules

- `wrappers.dfy`: `Option` and `Result`.
- `fields.dfy`: request bodies and the field errors of the REST framework: required, null, blank, max_length, invalid choice, custom message.
- `models.dfy`: the `Task` row, the status choices and the column constraints from `planner/viewer/models.py`.
- `database.dfy`: the tables the ORM keeps. `NewRow` is what `Task.objects.create` stores, including the effect of the column defaults.
- `task_serializer.dfy`: the fields of `TaskSerializer`, its validation, its `create`, and the default update.
- `task_views.dfy`: the five task handlers.
- `registration_serializer.dfy`: `UserRegistrationSerializer`.
- `account_views.dfy`: `LoginView.post`, `register` and `logout_view`.
- `walkthrough.dfy`: short concrete sessions on fresh tables, such as posting "Buy milk" and listing it, or a second delete of the same key.

## Parameters

These inputs are parameters rather than computed:

- The authenticated caller.
- Today's date.
- The messages of the password-strength validators for the submitted password. An empty list means the password is strong enough.
- Whether a refresh token's signature and expiry hold.

Passwords go through an ideal hasher: `Hashed(p)`, whose check accepts exactly `p`.

Four definitions stand for library behaviour. They are not operations with a
promise of their own; the rows of `Login`, `Logout` and `Get` prove what their
use gives.

- `AccountViews.Given` is `request.data.get(f)`: the sent text, or None for an absent or null value.
- `Database.CheckPassword` is the ideal hasher's check: an absent password is never accepted.
- `AccountViews.TokensFor` is `get_tokens_for_user`: an opaque refresh and access token pair for one user.
- `TaskViews.SerializeRows` is `many=True`: each row serialized in turn, in order.

The owner column is a foreign key to the user table. The handlers take the
caller's user id; `TaskViews.HandlerKeepsOwners` and
`TaskViews.RegistrationKeepsOwners` prove that, for a caller who is a stored
user, the handlers and registration keep every task's owner a stored user.

## Where the code decides

In three places the code behaves differently from what its declarations suggest; the model follows the code.

- **Description on create.** The description column is `TextField(default=None)`
  (`planner/viewer/models.py:33`). Because it declares a default, the serializer
  does not require it. A create body without a description passes validation,
  then the NOT NULL insert is refused and the framework answers 500. Nothing is
  stored. `TaskViews.Post` states this case.
- **PUT.** A full update requires only the title. A PUT body without a
  description or a status passes validation, and the row keeps its old
  description and status.
- **Email on registration.** The user model's email is `blank=True`, so
  registration accepts a body without an email. `create` then reads
  `validated_data['email']`, which raises, and the framework answers 500
  (`planner/accounts/serializers.py:51`). Nothing is stored.
  `AccountViews.Register` and `Walkthrough.RegisterWithoutEmail` state this case.

## Model

| member | source | states |
|---|---|---|
| Models.StatusText | planner/viewer/models.py:17-29 | every status is stored as a text of at most 30 characters; the text is empty exactly for the unset status; every other text is a key of STATUS_CHOICES labelled by itself |
| Models.ParseStatus | planner/viewer/models.py:34 | a status text is accepted exactly when it is blank or a choice key, and an accepted text is stored unchanged |
| Models.StatusRoundTrip | planner/viewer/models.py:34 | every status reads back as itself from its stored text |
| Database.NewRow | planner/viewer/models.py:31-35 | an insert succeeds exactly when description, creation_date and owner are given, because each declares default=None on a NOT NULL column; a refusal names a missing column; a stored row carries the given values, with title defaulting to "" and status to blank |
| Database.OwnedBy | planner/planner/views.py:56 | `filter(owner=user)`: a key is listed exactly when its row belongs to the user; keys come in strictly ascending order |
| Database.TaskTable.Create | planner/planner/serializers.py:43 | a refused insert leaves the table and the counter alone; an accepted one stores the row under the old counter value, a key not in use, and changes no other row |
| Database.TaskTable.Save | planner/planner/views.py:80 | the row under the key is replaced and nothing else changes |
| Database.TaskTable.Delete | planner/planner/views.py:127 | exactly that row is removed |
| Database.FindUsername | planner/accounts/serializers.py:26 | finds a user with that name when one exists below the bound, and reports none only when none exists |
| Database.UserTable.Find | planner/accounts/serializers.py:26 | `User.objects.filter(username=...)`: reports a user exactly when one is stored under that name |
| Database.UserTable.CreateUser | planner/accounts/serializers.py:49-53 | stores the username, email and hashed password under a fresh key and changes no other user |
| Database.UserTable.Delete | planner/accounts/views.py:79 | exactly that user is removed |
| Database.TokenBlacklist.Add | planner/accounts/views.py:111 | the token joins the revoked set |
| Fields.CharField | planner/viewer/models.py:31-34 | a text field accepts exactly a sent text that is non-blank where blank is not allowed and within max_length, or an absent value where the field is not required; absent-and-required is "required"; null is "not null" |
| TaskSerializer.WritableFields | planner/planner/serializers.py:21-22 | the fields a body can set are Meta.fields less the read-only ones and the primary key |
| TaskSerializer.Check | planner/viewer/models.py:31-34 | a writable field is refused exactly when it offends its column's constraints; an accepted sent field carries the sent value |
| TaskSerializer.Validate | planner/planner/serializers.py:15-22 | a body is accepted exactly when no writable field offends; the errors name exactly the offending fields; accepted data holds exactly the writable fields that were sent, with their values, and never id, owner or creation_date |
| TaskSerializer.Create | planner/planner/serializers.py:24-43 | without a user it raises "User must be authenticated to create a task." and stores nothing; otherwise the stored row's owner is the user and its creation date is today unless one was validated; the insert fails exactly when no description was validated |
| TaskSerializer.ApplyChanges | planner/planner/views.py:80 | the default update behind `serializer.save()` (also at line 105): each column not in the validated data keeps its value, and empty data changes nothing; UpdateFollowsPayload proves that owner and creation date are always kept, sent fields are taken and a valid row stays valid |
| TaskSerializer.UpdateFollowsPayload | planner/planner/serializers.py:22 | an accepted update keeps owner and creation date, takes each sent writable field, keeps each unsent one, and keeps a valid row valid |
| TaskSerializer.CreatedRowIsValid | planner/viewer/models.py:31-33 | an accepted create body has a title of 1 to 200 characters, and a non-blank description when it has one |
| TaskSerializer.Serialize | planner/planner/serializers.py:21 | a serialized task has exactly the keys id, title, owner, description, status and creation_date |
| TaskSerializer.SerializeInjective | planner/planner/serializers.py:21 | two rows serialize alike only if they have the same key and the same fields |
| TaskViews.HandlerKeepsOwners | planner/viewer/models.py:32 | a handler run for a stored user, writing only the caller's rows, keeps every task's owner a stored user |
| TaskViews.RegistrationKeepsOwners | planner/viewer/models.py:32 | storing a new user, and removing it again on rollback, keeps every task's owner a stored user |
| TaskViews.Post | planner/planner/views.py:21-37 | a rejected body answers 400 with the validation errors and stores nothing; an accepted one answers 201 and adds exactly one row, owned by the caller, dated today, with the sent title, description and status; a body without a description answers 500 and stores nothing; other users' rows never change |
| TaskViews.ListingComplete | planner/planner/views.py:56-60 | every row of the caller appears in the listing |
| TaskViews.ListingSound | planner/planner/views.py:56-60 | every listed item is a row of the caller |
| TaskViews.ListingDistinct | planner/planner/views.py:56-60 | no row is listed twice |
| TaskViews.Get | planner/planner/views.py:49-60 | the answer lists every row the caller owns, once each, and no row of another user |
| TaskViews.Patch | planner/planner/views.py:62-85 | a key the caller does not own answers 404 "Task not found or unauthorized" and nothing changes; a body refused as a partial update answers 400 and nothing changes; otherwise only that row changes, absent fields keep their values, and owner and creation date stay |
| TaskViews.Put | planner/planner/views.py:87-110 | as Patch, with the body validated as a full update, so a missing title answers 400 |
| TaskViews.Delete | planner/planner/views.py:112-129 | a key the caller does not own answers 404 and nothing changes; otherwise exactly that row is removed and the answer is 204 "Task deleted successfully"; afterwards the caller owns no row under that key |
| RegistrationSerializer.ValidateUsername | planner/accounts/serializers.py:21-29 | a username is accepted exactly when no stored user has it; otherwise "A user with this username already exists." |
| RegistrationSerializer.Check | planner/accounts/serializers.py:10-18 | username, password and password2 are refused when missing, null or blank, and email when null; username, email and password are refused beyond max_length 150, 254 and 128; the username is also refused when taken; an accepted sent field carries the sent text |
| RegistrationSerializer.Validate | planner/accounts/serializers.py:32-40 | a body is accepted exactly when every field passes, the username is free and the two passwords are equal; the errors are exactly the failing fields; "Passwords must match" is reported alone under non_field_errors, and only when every field passed |
| RegistrationSerializer.InsertKeepsUnique | planner/accounts/serializers.py:26-27 | storing a user under a fresh key with a free username keeps usernames unique |
| RegistrationSerializer.Create | planner/accounts/serializers.py:43-55 | stores exactly one user with the validated username, email and password; validated data without an email raises a missing-key error and stores nothing; a free username keeps usernames unique |
| RegistrationSerializer.Representation | planner/accounts/serializers.py:10-18 | the output holds every declared field except the write-only password2 |
| AccountViews.Login | planner/accounts/views.py:47-63 | tokens are granted exactly when a stored user has the sent username and accepts the sent password, and the tokens are that user's; every other request gets the same 401 "Invalid username or password" |
| AccountViews.LoginHidesWhichCheckFailed | planner/accounts/views.py:55-60 | an unknown username and a known username with a wrong password get identical 401 answers |
| AccountViews.Register | planner/accounts/views.py:67-82 | a rejected body answers 400 with the serializer's errors; a weak password answers 400 with the validators' messages; a missing email answers 500; in all three cases the user table ends unchanged; otherwise 201 "User registered successfully" with exactly one new user; usernames stay unique |
| AccountViews.Logout | planner/accounts/views.py:100-114 | no token, null or an empty token answers 400 "Refresh token is required"; a token that fails its checks or is already revoked answers 400 "Invalid token"; any other is revoked and the answer is 200 "Logged out successfully"; a refusal revokes nothing |
| Walkthrough.MilkIsAccepted | planner/viewer/models.py:31-34 | the body {title "Buy milk", description "2%", status "In queue"} passes validation |
| Walkthrough.ListingOfOne | planner/planner/views.py:56-60 | a table with one row of the caller lists exactly that row |
| Walkthrough.Seed | planner/planner/views.py:21-37 | posting "Buy milk" into an empty table stores it under key 1, owned by the caller and dated today |
| Walkthrough.PostThenList | planner/planner/views.py:21-60 | a task posted by a client is the one task that client then lists |
| Walkthrough.OtherClientIsTurnedAway | planner/planner/views.py:62-129 | another client's patch and delete both answer 404, and the owner still lists the task unchanged |
| Walkthrough.DeleteTwice | planner/planner/views.py:112-129 | the first delete answers 204; the second delete of the same key answers 404 |
| Walkthrough.RegisterTwice | planner/accounts/serializers.py:21-29 | registering the same username twice: the second attempt is refused with only the username error |
| Walkthrough.WeakPasswordIsRolledBack | planner/accounts/views.py:67-82 | a weak password is refused with its messages and leaves no user, so the same username then registers |
| Walkthrough.RegisterWithoutEmail | planner/accounts/serializers.py:43-55 | a body without an email answers 500 |
| Walkthrough.LoginAnswers | planner/accounts/views.py:47-63 | a wrong password and an unknown username get the same 401; the right password gets tokens |
| Walkthrough.LogoutTwice | planner/accounts/views.py:100-114 | a refresh token logs out once, is refused as invalid the second time, and an empty token is refused as missing |

## Left out

- Issuing, signing and verifying JSON web tokens (`rest_framework_simplejwt`). Tokens are opaque values. Whether a token's signature and expiry hold is a parameter of `Logout`.
- Password hashing and the `validate_password` strength rules. These are library code; the model uses an ideal hasher and a parameter holding the validators' messages.
- Rate limiting (`UserRateThrottle`, `AnonRateThrottle`): time-based framework policy.
- Token authentication and the `IsAuthenticated` permission. The caller is an already-authenticated user id, and task create always has a user. `TaskSerializer.Create` still models the refusal without one.
- Concurrency between requests. Each handler runs alone over the tables.
- URL routing, the migration, and the Vue front end.
- `ProtectedApiView`, `AccountInfoView` and `DashboardView`: constant or echoed answers.
- `Task.__str__`: string formatting only.
- Field-validation internals of the REST framework beyond the constraints the columns declare:
  - whitespace trimming of text fields;
  - JSON values that are neither text nor null;
  - the email format check;
  - the username character validator.
- The choice field also accepts the text "None", for the None key labelled "select status". Storing that text would write NULL into the NOT NULL status column. This case is not modelled: the model accepts "" and the four named statuses.
- The unique validator that the REST framework derives from the user model's unique username would report a taken name before `validate_username` runs, with the text "A user with that username already exists.". The model reports the taken name through `validate_username` and its own message.
- Database.UserTable.CreateUser: stores the username and email as sent. `create_user` stores the NFKC normal form of the username and lower-cases the email's domain. So a user registered as "ﬁle" (U+FB01) is stored as "file", and a login that sends "ﬁle" again is refused in the code but granted in the model.
- `Database.OwnedBy`: the database gives no order for `filter(owner=...)`. The model lists rows in primary-key order.
- `TaskSerializer.Serialize`: the JSON encoding of values (the date format) is not modelled. Values are kept as typed values.
- `AccountViews.Login`: a JSON value that is neither text nor null, sent as the username, is not modelled.
