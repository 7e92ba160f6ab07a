/** The values the record store is made of: a record, the integer and byte
    types of its fields, and the status values its operations report. */
module Records {

  /** One byte of the persisted file. */
  newtype Byte = b: int | 0 <= b < 0x100

  /** A C++ `int` on the platforms the store targets: signed 32 bits. */
  type Int32 = x: int | -0x8000_0000 <= x < 0x8000_0000

  /** A `std::string` as raw bytes; its length is a `size_t`, so below 2^64. */
  type Name = s: seq<Byte> | |s| < 0x1_0000_0000_0000_0000

  /** A record of the single table: the key `id`, a `name` and an `age`. */
  datatype Record = Record(id: Int32, name: Name, age: Int32)

  /** The "not found" result of a lookup (the C++ `query`'s `nullptr`). */
  datatype Option<T> = None | Some(value: T)

  /** What an operation reports instead of the console messages of the C++ table. */
  datatype Status = Ok | DuplicateKey | NotFound
}
