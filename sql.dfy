/** Shared vocabulary of the exporter's header file: optional pointers, the
    C integer widths that matter, the opaque `long double` payload and the
    fatal conditions that end the process through `sql_die`. */
module Sql {

  /** A C pointer that may be NULL. */
  datatype Option<+T> = None | Some(value: T)

  /** `long long`, the payload of an `int` column. */
  newtype Int64 = x: int | -0x8000_0000_0000_0000 <= x < 0x8000_0000_0000_0000

  /** `int`, the relative offset taken by the sibling insert. */
  newtype Int32 = x: int | -0x8000_0000 <= x < 0x8000_0000

  /** `long double`, the payload of a `float` column. The core never looks
      inside it: it only stores it and hands it to the float formatter. */
  type LongDouble(==)

  /** The owned heap texts an optional pointer stands for: one text when it
      is set, none when it is NULL. */
  function OptText(o: Option<string>): (m: multiset<string>)
    ensures |m| == if o.Some? then 1 else 0
  {
    if o.Some? then multiset{o.value} else multiset{}
  }

  /** Bookkeeping step of a setter: releasing `gone` and taking `taken` in
      place of it keeps the log balanced when the other live texts `rest`
      stay as they were. */
  lemma Exchange(duped: multiset<string>, freed: multiset<string>, gone: multiset<string>,
                 taken: multiset<string>, rest: multiset<string>)
    requires duped == freed + (gone + rest)
    ensures duped + taken == (freed + gone) + (taken + rest)
  {
    forall x ensures (duped + taken)[x] == ((freed + gone) + (taken + rest))[x] {
    }
  }

  /** Exchange with the exchanged text after the others. */
  lemma ExchangeLast(duped: multiset<string>, freed: multiset<string>, gone: multiset<string>,
                     taken: multiset<string>, rest: multiset<string>)
    requires duped == freed + (rest + gone)
    ensures duped + taken == (freed + gone) + (rest + taken)
  {
    forall x ensures (duped + taken)[x] == ((freed + gone) + (rest + taken))[x] {
    }
  }

  /** Every condition on which the core calls `sql_die`, which aborts. */
  datatype Fatal =
    | InvalidType(column: Option<string>)   // a row cell that is neither int nor float
    | DuplicateTable(name: string)          // add_table with a name already registered
    | AlreadyLocked(locked: Option<string>) // lock_table while a table is locked
    | NoSuchTable(name: string)             // lock_table of an unregistered name
    | NoCompression                         // compression asked of a build without zlib
    | CannotOpen(filename: string)          // the output file could not be opened

  /** How an operation that may abort ends: normally, or in `abort()`. */
  datatype Outcome = Done | Died(reason: Fatal)
}
