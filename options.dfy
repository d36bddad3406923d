/** An optional value: a missing href attribute, a HEAD request that failed,
    a query that has not answered yet, a row that is not in the table. */
module Options {
  datatype Option<+T> = None | Some(value: T)
}
