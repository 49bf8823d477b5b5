/** The page of the target, as TARGET_PAGE_BITS fixes it for most targets. */
module TargetPage {
  const PAGE_SIZE := 4096
}
