/** The outcome of reading one raw record, include/sysal/types/enums.hpp. */
module RawRecords {
  datatype CollectStatus = Success | PartialStatus | Failed | NotCollected
}
