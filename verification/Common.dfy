/**
 Record ids, page numbers and optional values, shared by the other modules.
 */
module Common {

  /** The place of a record: its page and its slot there. */
  datatype Rid = Rid(pageNo: int, slotNo: int)

  datatype Option<T> = None | Some(value: T)

  /** The page number that stands for no page. */
  const NO_PAGE := -1
}
