/** Values shared by every key-value backend: byte strings, Rust's `Option`,
    the `u64` range, and the tri-state `Existence` a mutation reports. */
module Common {

  /** Rust's `Option<T>`. */
  datatype Option<+T> = None | Some(value: T)

  /** A `u8`. */
  type byte = b: int | 0 <= b < 0x100

  /** A `Vec<u8>` / `&[u8]`. */
  type Bytes = seq<byte>

  /** One more than `u64::MAX`. */
  const U64_LIMIT: nat := 0x1_0000_0000_0000_0000

  /** What a mutation learned about the key's previous binding:
      `Existence::new(true)`, `Existence::new(false)` or `Existence::unknown()`. */
  datatype Existence = Present | Absent | Unknown {

    /** The backend could tell whether the key existed. */
    predicate Known() {
      !Unknown?
    }
  }

  /** `Existence::new(existed)`: a known answer that is `Present` exactly when `existed`. */
  function NewExistence(existed: bool): (e: Existence)
    ensures e.Known()
    ensures e == Present <==> existed
  {
    if existed then Present else Absent
  }
}
