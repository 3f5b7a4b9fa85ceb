/** A cell of a data-frame column: either a value or the missing marker (NaN). */
module Cells {

  datatype Cell<+T> = Missing | Present(value: T)
}
