/** The list statuses of a library row (src/domain.hpp). */
module Library {
  datatype ListStatus = Planning | Watching | Paused | Completed | Dropped
}
