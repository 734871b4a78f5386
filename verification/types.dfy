/** Identifiers, status codes and sentinels shared by the buffer manager, its
    frames, its replacement policy and the page store. */
module Types {

  /** A disk page identifier. Identifiers are plain integers; INVALID_PAGE
      marks a frame that holds no page. */
  type PageID = int

  const INVALID_PAGE: PageID := -1

  /** The frame index returned when no frame qualifies. */
  const INVALID_FRAME: int := -1

  /** The two-valued status every operation of the buffer manager returns. */
  datatype Status = OK | FAIL

  /** Page bytes are opaque to the buffer manager. */
  type Page = seq<bv8>

  /** The contents of a buffer that has never been filled. */
  const BLANK_PAGE: Page := []
}
