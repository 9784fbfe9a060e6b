/**
 * The bookshelf models: the user manager's rules for creating users and
 * superusers, the book record the views work on, and the borrow record
 * with its status and overdue check.
 */
module BookshelfModels {
  import opened Wrappers

  // ---------------------------------------------------------------------
  // CustomUserManager
  // ---------------------------------------------------------------------

  /** A value passed as an extra keyword field. Only `BoolValue(true)` is
      the object `True` that the manager's `is True` checks accept; `1` or
      the string "True" are different values. */
  datatype FieldValue = BoolValue(b: bool) | IntValue(i: int) | TextValue(s: string) | NoneValue

  /** The errors the manager raises. */
  datatype ManagerError =
    | EmailRequired      // "The given email must be set"
    | StaffRequired      // "Superuser must have is_staff=True."
    | SuperuserRequired  // "Superuser must have is_superuser=True."

  /** A user as the manager builds it: the email, the password handed to
      `set_password`, and the extra fields the user is constructed with. */
  datatype User = User(email: string, password: Option<string>, extraFields: map<string, FieldValue>)

  /** `fields` is `extra` with `defaults` filled in: every key of either map
      is present, a value the caller gave is kept, and a missing key takes
      its default. */
  predicate DefaultsApplied(
    fields: map<string, FieldValue>, extra: map<string, FieldValue>, defaults: map<string, FieldValue>)
  {
    && fields.Keys == extra.Keys + defaults.Keys
    && (forall k :: k in extra ==> fields[k] == extra[k])
    && (forall k :: k in defaults && k !in extra ==> fields[k] == defaults[k])
  }

  /** The key is absent or holds exactly True. */
  predicate AbsentOrTrue(m: map<string, FieldValue>, key: string) {
    key !in m || m[key] == BoolValue(true)
  }

  const UserDefaults: map<string, FieldValue> :=
    map["is_staff" := BoolValue(false), "is_superuser" := BoolValue(false)]

  const SuperuserDefaults: map<string, FieldValue> :=
    map["is_staff" := BoolValue(true), "is_superuser" := BoolValue(true), "is_active" := BoolValue(true)]

  /** CustomUserManager._create_user: an empty email is refused before any
      user is built; otherwise the user carries the email, password and
      extra fields as given. */
  function BuildUser(email: string, password: Option<string>, extraFields: map<string, FieldValue>)
    : (r: Result<User, ManagerError>)
    ensures r.Failure? <==> email == ""
    ensures r.Failure? ==> r.error == EmailRequired
    ensures r.Success? ==> r.value == User(email, password, extraFields)
  {
    if email == "" then Failure(EmailRequired) else Success(User(email, password, extraFields))
  }

  /** CustomUserManager.create_user: `is_staff` and `is_superuser` default
      to False without overriding what the caller passed; the email must be
      set. */
  method CreateUser(email: string, password: Option<string>, extraFields: map<string, FieldValue>)
    returns (r: Result<User, ManagerError>)
    ensures r.Success? <==> email != ""
    ensures r.Failure? ==> r.error == EmailRequired
    ensures r.Success? ==>
      && r.value.email == email && r.value.password == password
      && DefaultsApplied(r.value.extraFields, extraFields, UserDefaults)
  {
    var fields := extraFields;
    if "is_staff" !in fields {
      fields := fields["is_staff" := BoolValue(false)];
    }
    if "is_superuser" !in fields {
      fields := fields["is_superuser" := BoolValue(false)];
    }
    r := BuildUser(email, password, fields);
  }

  /** CustomUserManager.create_superuser: `is_staff`, `is_superuser` and
      `is_active` default to True without overriding what the caller passed;
      then `is_staff` must be exactly True, then `is_superuser`, and only
      then is the email checked. A created superuser has both flags True. */
  method CreateSuperuser(email: string, password: Option<string>, extraFields: map<string, FieldValue>)
    returns (r: Result<User, ManagerError>)
    ensures !AbsentOrTrue(extraFields, "is_staff") ==> r == Failure(StaffRequired)
    ensures AbsentOrTrue(extraFields, "is_staff") && !AbsentOrTrue(extraFields, "is_superuser") ==>
              r == Failure(SuperuserRequired)
    ensures AbsentOrTrue(extraFields, "is_staff") && AbsentOrTrue(extraFields, "is_superuser") ==>
              (r.Failure? <==> email == "") && (r.Failure? ==> r.error == EmailRequired)
    ensures r.Success? ==>
      && r.value.email == email && r.value.password == password
      && DefaultsApplied(r.value.extraFields, extraFields, SuperuserDefaults)
      && r.value.extraFields["is_staff"] == BoolValue(true)
      && r.value.extraFields["is_superuser"] == BoolValue(true)
  {
    var fields := extraFields;
    if "is_staff" !in fields {
      fields := fields["is_staff" := BoolValue(true)];
    }
    if "is_superuser" !in fields {
      fields := fields["is_superuser" := BoolValue(true)];
    }
    if "is_active" !in fields {
      fields := fields["is_active" := BoolValue(true)];
    }
    if fields["is_staff"] != BoolValue(true) {
      return Failure(StaffRequired);
    }
    if fields["is_superuser"] != BoolValue(true) {
      return Failure(SuperuserRequired);
    }
    r := BuildUser(email, password, fields);
  }

  // ---------------------------------------------------------------------
  // Book
  // ---------------------------------------------------------------------

  /** A book row as the views read it; `createdAt` is the creation
      timestamp, as a number that orders like the timestamps. */
  datatype Book = Book(
    id: nat, title: string, author: string, isbn: string, isAvailable: bool, createdAt: int)

  // ---------------------------------------------------------------------
  // BorrowRecord
  // ---------------------------------------------------------------------

  /** A calendar date; dates compare as (year, month, day). */
  datatype Date = Date(year: int, month: int, day: int)

  /** `a < b` on dates. */
  predicate Before(a: Date, b: Date) {
    a.year < b.year
    || (a.year == b.year && a.month < b.month)
    || (a.year == b.year && a.month == b.month && a.day < b.day)
  }

  /** The three values the status field may take. */
  const StatusChoices: set<string> := {"borrowed", "returned", "overdue"}

  datatype BorrowRecord = BorrowRecord(
    bookId: nat, userId: nat, borrowDate: Date, dueDate: Date,
    returnDate: Option<Date>, status: string)

  /** A new borrow record: borrowed on `today`, not yet returned, and with
      the default status `borrowed`, one of the three choices. */
  function NewBorrowRecord(bookId: nat, userId: nat, today: Date, dueDate: Date): (r: BorrowRecord)
    ensures r.status == "borrowed" && r.status in StatusChoices
    ensures r.returnDate.None? && r.borrowDate == today && r.dueDate == dueDate
    ensures r.bookId == bookId && r.userId == userId
  {
    BorrowRecord(bookId, userId, today, dueDate, None, "borrowed")
  }

  /** BorrowRecord.is_overdue, with the current date as a parameter: the
      record is still borrowed and today falls after its due date, that is,
      neither on nor before it. */
  predicate IsOverdue(rec: BorrowRecord, today: Date): (r: bool)
    ensures r <==> rec.status == "borrowed" && rec.dueDate != today && !Before(today, rec.dueDate)
  {
    Before(rec.dueDate, today) && rec.status == "borrowed"
  }

  /** A record is overdue exactly when it is still borrowed and its due
      date lies strictly before today: a book due today is not overdue,
      and a returned record, or one already marked overdue, is never
      reported. */
  lemma OverdueExactly(r: BorrowRecord, today: Date)
    ensures IsOverdue(r, today) ==> r.status == "borrowed" && r.dueDate != today
    ensures r.dueDate == today ==> !IsOverdue(r, today)
    ensures r.status in {"returned", "overdue"} ==> !IsOverdue(r, today)
  {
  }

  /** Once overdue, a record stays overdue on every later day. */
  lemma OverdueStaysOverdue(r: BorrowRecord, today: Date, later: Date)
    requires IsOverdue(r, today)
    requires today == later || Before(today, later)
    ensures IsOverdue(r, later)
  {
  }

  /** A freshly created record is overdue only when its due date was
      already past on the day it was created. */
  lemma NewRecordOverdue(bookId: nat, userId: nat, today: Date, dueDate: Date)
    ensures IsOverdue(NewBorrowRecord(bookId, userId, today, dueDate), today) <==> Before(dueDate, today)
  {
  }
}
