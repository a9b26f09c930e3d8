/** The failures the pipeline can raise, and the result and option types that
    carry them. Each error names the Python exception it stands for. */
module Errors {

  datatype Error =
    | EmptyArgmin              // ValueError: `argmin` of an empty distance series
    | MissingColumn(name: string) // KeyError / AttributeError: a column that is not there
    | MissingLabel(index: int) // KeyError: `.loc[index]` with no such row
    | NotText(column: string)  // AttributeError / ValueError: a string method on a non-string cell
    | NotGeometry              // AttributeError: `.centroid` on a missing geometry
    | NotNumeric(column: string) // TypeError: `round` on a column holding non-numbers

  datatype Result<T> = Ok(value: T) | Err(error: Error)

  /** A pandas scalar that may be NaN: `None` is NaN. */
  datatype Option<T> = None | Some(value: T)
}
