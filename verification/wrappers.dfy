/** The optional value used for spreadsheet cells: `None` stands for a
    missing cell (pandas NA / NaN), `Some(v)` for a cell holding text `v`. */
module Wrappers {

  datatype Option<+T> = None | Some(value: T) {

    /** The held value, or `default` when the cell is missing. */
    function GetOr(default: T): (r: T)
      ensures Some? ==> r == value
      ensures None? ==> r == default
    {
      match this
      case Some(v) => v
      case None => default
    }
  }
}
