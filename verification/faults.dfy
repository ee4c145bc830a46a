/** The exceptions the proxy does not catch; each ends the request with a server error. */
module Faults {
  datatype Fault =
    | ColumnNotObject(column: nat)         // c?["name"] on a column node that is not an object
    | DuplicateProperty(column: nat)       // c?["name"] on a column object that repeats a property name
    | RowNotArray(row: nat)                // row?[i] on a row node that is neither null nor an array
    | RowTooShort(row: nat, column: nat)   // row?[i] past the end of the row
    | CellNotValue(row: nat, column: nat)  // GetValue<object>() on an object or array cell
    | NullQuery                            // Regex.Match on a null query
    | TimeOutOfRange                       // AddMinutes / AddMilliseconds past DateTime's range
    | CursorRowNull                        // rows.Last()[0] on a null row
    | CursorUnparsable                     // DateTime.Parse of the cursor text fails
}
