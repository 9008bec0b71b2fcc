/** The result codes of the xcore library that the modelled code uses. */
module Xcore {
  datatype Result =
    | E_OK
    | E_MEMORY
    | E_ACCESS
    | E_ADDRESS
    | E_EMPTY
    | E_ENTRY
    | E_FULL
    | E_INVALID
    | E_TIMEOUT
    | E_VALUE
}
