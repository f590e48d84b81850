/** The transaction record the panel receives from the server and keeps in the store. */
module Transactions {

  /** The only status value the panel tests for; every other value is treated as unpaid. */
  const PaidStatus: string := "PAID"

  /**
   * One transaction. Timestamps are the integer milliseconds that `getTime()`
   * yields after the ISO strings have been parsed.
   */
  datatype Tx = Tx(
    id: string,
    status: string,
    durationInMonths: int,
    paidAt: int,
    expiredAt: int,
    price: int,
    qrUrl: string
  )

  predicate IsPaid(tx: Tx) {
    tx.status == PaidStatus
  }
}
