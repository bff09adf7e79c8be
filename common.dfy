/** Shared result and error types of the converter.

    Every failure of the script is fatal: a Python exception aborts the run.
    Each exception the script can raise becomes one constructor of ConvertError,
    so the model returns a Failure where the script raises.
 */
module Common {

  datatype Option<+T> = None | Some(value: T)

  datatype Result<+T> = Success(value: T) | Failure(error: ConvertError)

  datatype ConvertError =
    // Metadata block of a daily file (Comparer._scroll_and_find_col)
    | EmptyMetadataRow(line: string)                  // stations[0] on a row without tokens (IndexError)
    | NotMetadataRow(line: string)                    // first non-comment row does not start with the sentinel
    | StationNotFound(station: string, stations: seq<string>)
    | MetadataLineEmpty(lineno: nat, line: string)    // split()[0] on a row without tokens (IndexError)
    | NotMetadataLine(lineno: nat, line: string)      // one of the four further rows lacks the sentinel
    // Lockstep reading of the two daily files (Comparer._load_data)
    | FilesDidNotMatch(orig: string, trans: string)   // exactly one of the two rows is blank
    | DateMismatch(lineno: nat, origDate: string, transDate: string)
    | ValueColumnMissing(line: string)                // row has too few tokens for the station column (IndexError)
    | NotANumber(text: string)                        // float() refuses the token (ValueError)
    // Hourly file (Transformer.transform)
    | MissingColumn(headers: seq<string>)
    | FieldMissing(column: nat, line: string)         // row has too few fields (IndexError)
    | NotAnInteger(text: string)                      // int() refuses the field (ValueError)
    | StationMismatch(expected: string, found: string, date: string)
    // Offset table lookup (Comparer.get_diff)
    | DateNotFound(date: string)                      // KeyError
}
