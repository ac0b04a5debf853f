/** The BGP message parsers of the yabgp library, taken as given: each turns the
    body of a BGP message into a result or raises. Results are kept as text. */
module Bgp {
  import opened Bytes

  /** Length of the BGP message header, section 4.1 of RFC 4271. */
  const HDR_LEN: nat := 19

  datatype Update = Update(subError: bool, attr: string, nlri: string, withdraw: string)
  datatype Refresh = Refresh(afi: nat, res: nat, safi: nat)

  datatype Parsers = Parsers(
    update: bytes -> Result<Update>,
    refresh: bytes -> Result<Refresh>,
    open: bytes -> Result<string>,
    notification: bytes -> Result<string>)
}
