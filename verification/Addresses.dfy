/** Stations and access points are told apart by their addresses. */
module Addresses {

  type MacAddress = nat

  /** The address that stands for none. */
  const INVALID: MacAddress := 0
}
