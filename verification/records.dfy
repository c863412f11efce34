/** The process records the view is built from. They belong to the data layer
    and are only read here. */
module Records {

  datatype Option<T> = None | Some(value: T)

  /** A process; `tags` is absent on records created without any. `createdAt`
      is the creation time already converted to a number. */
  datatype Record = Record(
    id: string,
    title: string,
    description: string,
    tags: Option<seq<string>>,
    sessionId: string,
    createdAt: int,
    color: string)

  /** The tags of a record, a missing tag list read as an empty one. */
  function TagsOf(p: Record): seq<string>
  {
    match p.tags
    case None => []
    case Some(ts) => ts
  }
}
