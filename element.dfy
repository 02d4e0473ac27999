/**
 * The record stored in the container and the names of its indexed fields.
 *
 * The derive macro is told, per field, whether it is indexed and how:
 * hashed or ordered, unique or non-unique. The model fixes one record with
 * one field of each of the four kinds and an unindexed payload, the shape
 * of the record in multi_index_map/tests/capacity_manipulations.rs.
 */
module Element {

  /** A stored record. Field values are modelled as naturals. */
  datatype Elem = Elem(
    field1: nat,   // hashed_unique
    field2: nat,   // hashed_non_unique
    field3: nat,   // ordered_unique
    field4: nat,   // ordered_non_unique
    payload: int   // unindexed
  )

  /** How a lookup table orders its keys: a hash map or a B-tree map. */
  datatype Ordering = Hashed | Ordered

  /** The fields whose table maps a value to one slot. */
  datatype UniqueField = Field1 | Field3

  /** The fields whose table maps a value to a set of slots. */
  datatype NonUniqueField = Field2 | Field4

  /** The value of a unique field of a record. */
  function UKey(e: Elem, f: UniqueField): nat
  {
    match f
    case Field1 => e.field1
    case Field3 => e.field3
  }

  /** The value of a non-unique field of a record. */
  function NKey(e: Elem, f: NonUniqueField): nat
  {
    match f
    case Field2 => e.field2
    case Field4 => e.field4
  }

  function UniqueOrdering(f: UniqueField): Ordering
  {
    match f
    case Field1 => Hashed
    case Field3 => Ordered
  }

  function NonUniqueOrdering(f: NonUniqueField): Ordering
  {
    match f
    case Field2 => Hashed
    case Field4 => Ordered
  }

  /** The record with its unindexed payload replaced; every indexed field kept. */
  function WithPayload(e: Elem, p: int): (r: Elem)
    ensures forall f :: UKey(r, f) == UKey(e, f)
    ensures forall f :: NKey(r, f) == NKey(e, f)
    ensures r.payload == p
  {
    e.(payload := p)
  }

  /** The error a uniqueness violation reports: the field whose constraint was violated. */
  datatype UniquenessError = UniquenessError(field: UniqueField)
}
