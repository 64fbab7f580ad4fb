/**
 * A stored record: an identity and a field-to-value mapping fixed at
 * construction, plus the one piece of mutable state, the soft-delete flag.
 * The table and every index hold references to the same DataRecord object,
 * so a delete made through any cursor is seen everywhere.
 */
module Records {

  class DataRecord {
    /** getRecordId(): fixed at construction, never reassigned. */
    const id: int
    /** getValues(): the field-to-value mapping as it stood at construction. */
    const values: map<string, string>
    /** isDeletePending() */
    var deletePending: bool

    constructor (recordId: int, vals: map<string, string>)
      ensures id == recordId && values == vals
      ensures !deletePending
    {
      id := recordId;
      values := vals;
      deletePending := false;
    }

    /** Only the flag changes; identity and values are constants. */
    method SetDeletePending(value: bool)
      modifies this
      ensures deletePending == value
    {
      deletePending := value;
    }
  }
}
