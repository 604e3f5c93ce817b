/** The value types shared by the event store: the `Event` record, the
    error the store reports, and the small wrappers its operations return. */
module Events {

  /** One row of the `event` table, with the fields in the order of the
      `Event` struct: `id`, `source`, `code`, `output`, `date`.
      `date` is caller-supplied text (RFC 2822 in practice) and is compared
      as text, never as a time value. */
  datatype Event = Event(id: int, source: string, code: int, output: string, date: string)

  /** The one error the core produces itself: a point lookup that finds no row. */
  datatype Error = InvalidQuery

  datatype Result<T> = Ok(value: T) | Err(error: Error)

  datatype Option<T> = None | Some(value: T)

  /** The unsigned 32-bit id that `get_event_by_id` takes. */
  newtype u32 = x: int | 0 <= x < 0x1_0000_0000

  /** No value occurs twice in `xs`. */
  predicate NoDuplicates<T(==)>(xs: seq<T>) {
    forall i, j :: 0 <= i < j < |xs| ==> xs[i] != xs[j]
  }
}
