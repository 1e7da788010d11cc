/**
 * What the service sees of the relational store and of the Diesel library:
 * the column type `Integer`, the error type `diesel::result::Error` (the
 * variants the inventory service can meet), and the environment of one call
 * (whether the pool hands out a connection, and whether the statement fails).
 */
module Store {
  import opened Wrappers

  /** A MySQL `INT` column, read into a Rust `i32`. */
  newtype i32 = x: int | -0x8000_0000 <= x < 0x8000_0000

  const I32_MAX: int := 0x7fff_ffff

  /** The kinds of database failure Diesel distinguishes. */
  datatype DatabaseErrorKind =
    | UniqueViolation
    | ForeignKeyViolation
    | ClosedConnection
    | UnknownKind

  /** `diesel::result::Error`, restricted to what the inventory service can meet. */
  datatype Error =
    | NotFound                              // a `first` query matched no row
    | QueryBuilderError                     // an update with no column to set
    | DatabaseError(kind: DatabaseErrorKind) // the store refused or failed a statement

  /**
   * The environment of one service call: whether the connection pool hands
   * out a connection, and whether the store fails the call's statement (a
   * dropped connection, a constraint the store enforces, ...).
   */
  datatype Io = Io(poolAvailable: bool, fault: Option<DatabaseErrorKind>)
  {
    /** Neither the pool nor the store fails. */
    predicate Healthy() { poolAvailable && fault.None? }
  }
}
