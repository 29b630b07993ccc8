/** A value that may be absent: what the content-graph code expresses as
    `null`, `undefined`, or an exception its caller catches. */
module Optional {

  datatype Option<T> = None | Some(value: T)
}
