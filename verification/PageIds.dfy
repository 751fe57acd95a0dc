/** The identity of a page: file descriptor and page number. */
module PageIds {
  datatype PageId = PageId(fd: int, pageNo: int)

  const INVALID_PAGE: PageId := PageId(-1, -1)
}
