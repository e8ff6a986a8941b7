/** A value that may be absent: a nullable column, an absent request field,
    or a query that returned no row. */
module Optional {

  datatype Option<T> = None | Some(value: T)

}
