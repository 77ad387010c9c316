/** The record type of the dynamic store; its text forms are in DynamicText. */
module DynamicRecords {
  import opened Strings
  import opened Records

  /** A record with the annotations the API understands. */
  datatype DynamicRecord = DynamicRecord(record: Record, id: Option<int>, volatile: bool, disabled: bool)
}
