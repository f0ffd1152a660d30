/** The resets a request can ask for, taken by the loop that handled it. */
module Resets {

  datatype Reset = NoReset | HardReset | SoftReset
}
