/** The optional value of Python's `str | None` results and of possibly-missing inputs. */
module Wrappers {

  datatype Option<+T> = None | Some(value: T)
}
