/**
 * The shapes of collections the operators accept. A deep collection is a
 * collection whose elements are values or, again, deep collections.
 */
module Types {

  /** An element of a deep collection: a plain value, or a nested collection. */
  datatype Deep<+T> = Leaf(value: T) | Nested(children: seq<Deep<T>>)
}
