// The half-duplex link: what it is doing, and when it takes a response.
module CommLink {
  datatype LinkState = Idle | Receiving | Transmitting

  datatype TxError = NoTxError | TxOverflow | TxBusy | TxDisabled

  /** The verdict on a response of `length` bytes. */
  function SendVerdict(enabled: bool, link: LinkState, length: nat, limit: nat): TxError {
    if !enabled then TxDisabled
    else if link != Idle then TxBusy
    else if length > limit then TxOverflow
    else NoTxError
  }
}
