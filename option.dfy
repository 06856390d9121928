/** TypeScript's optional properties (`operation?`, `oldFileName?`) and the
    `null` of an absent current record. */
module Optional {
  datatype Option<T> = None | Some(value: T)
}
