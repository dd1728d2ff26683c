/** The database error family of utils/db.ts: `DatabaseError` and its two subclasses for
    PostgreSQL integrity-constraint violations (SQLSTATE class 23, Appendix A of the
    PostgreSQL manual), and `handleDatabaseError`, which sorts any thrown value into that
    family. */
module DbErrors {
  import opened Wrappers

  /** SQLSTATE 23505, unique_violation. */
  const UniqueViolation: string := "23505"
  /** SQLSTATE 23503, foreign_key_violation. */
  const ForeignKeyViolation: string := "23503"

  const UniqueDefaultMessage: string := "Unique constraint violation"
  const ForeignKeyDefaultMessage: string := "Foreign key constraint violation"
  const UnknownMessage: string := "Unknown database error occurred"

  /** The class an error was constructed with: `DatabaseError` itself or one of its
      subclasses. All three are `instanceof DatabaseError`. */
  datatype ErrorClass = Base | UniqueConstraint | ForeignKeyConstraint

  /** A value a database call may throw, as far as `handleDatabaseError` can tell it apart:
      a member of the DatabaseError family, another value whose `code` and `message`
      properties are read (absent properties are `None`), or `null`/`undefined`. */
  datatype Thrown =
    | Existing(error: DatabaseError)
    | Raw(code: Option<string>, message: Option<string>)
    | Null
    | Undefined

  /** An object of the DatabaseError family after its constructor has run. An absent
      `originalError` is `Undefined`. */
  datatype DatabaseError = DatabaseError(
    cls: ErrorClass, name: string, message: string, code: Option<string>, originalError: Thrown)

  /** What the constructors establish: the name of the class, and the SQLSTATE code of
      each subclass. */
  predicate WellFormed(e: DatabaseError) {
    match e.cls
    case Base => e.name == "DatabaseError"
    case UniqueConstraint => e.name == "UniqueConstraintError" && e.code == Some(UniqueViolation)
    case ForeignKeyConstraint => e.name == "ForeignKeyConstraintError" && e.code == Some(ForeignKeyViolation)
  }

  /** `new DatabaseError(message, code, originalError)`. */
  function NewDatabaseError(message: string, code: Option<string>, originalError: Thrown): (e: DatabaseError)
    ensures WellFormed(e) && e.cls == Base
    ensures e.message == message && e.code == code && e.originalError == originalError
  {
    DatabaseError(Base, "DatabaseError", message, code, originalError)
  }

  /** `new UniqueConstraintError(message, originalError)`; the default message replaces an
      `undefined` one only. */
  function NewUniqueConstraintError(message: Option<string>, originalError: Thrown): (e: DatabaseError)
    ensures WellFormed(e) && e.cls == UniqueConstraint
    ensures message.Some? ==> e.message == message.value
    ensures message.None? ==> e.message == UniqueDefaultMessage
    ensures e.originalError == originalError
  {
    var base := NewDatabaseError(message.GetOr(UniqueDefaultMessage), Some(UniqueViolation), originalError);
    base.(cls := UniqueConstraint, name := "UniqueConstraintError")
  }

  /** `new ForeignKeyConstraintError(message, originalError)`; the default message replaces
      an `undefined` one only. */
  function NewForeignKeyConstraintError(message: Option<string>, originalError: Thrown): (e: DatabaseError)
    ensures WellFormed(e) && e.cls == ForeignKeyConstraint
    ensures message.Some? ==> e.message == message.value
    ensures message.None? ==> e.message == ForeignKeyDefaultMessage
    ensures e.originalError == originalError
  {
    var base := NewDatabaseError(message.GetOr(ForeignKeyDefaultMessage), Some(ForeignKeyViolation), originalError);
    base.(cls := ForeignKeyConstraint, name := "ForeignKeyConstraintError")
  }

  /** What a call of `handleDatabaseError` does: return a DatabaseError, or throw the
      TypeError that reading `code` of `null` or `undefined` raises. */
  datatype Handled = Returns(value: DatabaseError) | ThrowsTypeError

  /** JavaScript truthiness of an optional string: `undefined` and `""` are falsy. */
  predicate Truthy(s: Option<string>) {
    s.Some? && s.value != ""
  }

  /** `handleDatabaseError(error)`. */
  function HandleDatabaseError(error: Thrown): (r: Handled)
    ensures error.Existing? ==> r == Returns(error.error)
    ensures r.ThrowsTypeError? <==> error.Null? || error.Undefined?
    ensures error.Raw? ==> r.Returns? && WellFormed(r.value)
    ensures error.Raw? ==> r.value.code == error.code && r.value.originalError == error
    ensures error.Raw? ==> (r.value.cls == UniqueConstraint <==> error.code == Some(UniqueViolation))
    ensures error.Raw? ==> (r.value.cls == ForeignKeyConstraint <==> error.code == Some(ForeignKeyViolation))
  {
    match error
    case Existing(e) => Returns(e)
    case Null => ThrowsTypeError
    case Undefined => ThrowsTypeError
    case Raw(code, message) =>
      if code == Some(UniqueViolation) then Returns(NewUniqueConstraintError(message, error))
      else if code == Some(ForeignKeyViolation) then Returns(NewForeignKeyConstraintError(message, error))
      else Returns(NewDatabaseError(if Truthy(message) then message.value else UnknownMessage, code, error))
  }

  /** Any other code, or none, gives a plain DatabaseError named "DatabaseError" that keeps
      the code. */
  lemma OtherCodesArePlain(code: Option<string>, message: Option<string>)
    requires code != Some(UniqueViolation) && code != Some(ForeignKeyViolation)
    ensures HandleDatabaseError(Raw(code, message)).Returns?
    ensures var e := HandleDatabaseError(Raw(code, message)).value;
            e.cls == Base && e.name == "DatabaseError" && e.code == code
  {
  }

  /** In the plain branch a missing or empty message becomes the generic one, any other
      message is kept, and so the message is never empty. */
  lemma PlainMessage(code: Option<string>, message: Option<string>)
    requires code != Some(UniqueViolation) && code != Some(ForeignKeyViolation)
    ensures var e := HandleDatabaseError(Raw(code, message)).value;
            && (message == None || message == Some("") ==> e.message == UnknownMessage)
            && (Truthy(message) ==> e.message == message.value)
            && e.message != ""
  {
  }

  /** In the two constraint branches a present message is kept, even an empty one; only an
      absent message becomes the class default. */
  lemma ConstraintMessage(code: Option<string>, message: Option<string>)
    requires code == Some(UniqueViolation) || code == Some(ForeignKeyViolation)
    ensures var e := HandleDatabaseError(Raw(code, message)).value;
            && (message.Some? ==> e.message == message.value)
            && (message.None? && code == Some(UniqueViolation) ==> e.message == UniqueDefaultMessage)
            && (message.None? && code == Some(ForeignKeyViolation) ==> e.message == ForeignKeyDefaultMessage)
  {
  }

  /** The same empty message is kept by a constraint error and replaced by a plain one. */
  lemma EmptyMessageDependsOnBranch()
    ensures HandleDatabaseError(Raw(Some(UniqueViolation), Some(""))).value.message == ""
    ensures HandleDatabaseError(Raw(Some(ForeignKeyViolation), Some(""))).value.message == ""
    ensures HandleDatabaseError(Raw(Some("42P01"), Some(""))).value.message == UnknownMessage
  {
  }

  /** Classifying a classified error changes nothing. */
  lemma Idempotent(error: Thrown)
    requires HandleDatabaseError(error).Returns?
    ensures HandleDatabaseError(Existing(HandleDatabaseError(error).value)) == HandleDatabaseError(error)
  {
  }

  /** Every returned error is well formed unless it was handed in ill formed. */
  lemma ResultWellFormed(error: Thrown)
    requires HandleDatabaseError(error).Returns?
    requires error.Existing? ==> WellFormed(error.error)
    ensures WellFormed(HandleDatabaseError(error).value)
  {
  }
}
