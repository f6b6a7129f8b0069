/** What several parts of the engine share: record ids, the page size, optional values. */
module Defs {
  datatype Rid = Rid(pageNo: int, slotNo: int)

  datatype Option<T> = None | Some(value: T)

  const PAGE_SIZE: nat := 4096
}
