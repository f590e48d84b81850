/**
 * The presentation decisions of one transaction card and the value the card
 * writes to the store while it renders.
 */
module HistoryItem {
  import opened Wrappers
  import opened Transactions
  import opened Expiry

  /** The card's bottom margin: none for the last card, the standard one otherwise. */
  datatype Margin = NoMargin | StandardMargin

  /**
   * What a card shows, before formatting: the status label, the instant shown
   * as "valid until", the price, the payment link (if any) and the margin.
   */
  datatype CardView = CardView(
    statusLabel: string,
    validUntil: int,
    price: int,
    payLink: Option<string>,
    margin: Margin
  )

  /** The card for the transaction at position `index` of a list of `txLength` transactions. */
  function ItemView(tx: Tx, index: int, txLength: int): (c: CardView)
    ensures c.statusLabel == "Paid" <==> IsPaid(tx)
    ensures c.statusLabel == "Unpaid" <==> !IsPaid(tx)
    ensures c.payLink.Some? <==> !IsPaid(tx)
    ensures c.payLink.Some? ==> c.payLink.value == tx.qrUrl
    ensures c.margin == NoMargin <==> index == txLength - 1
    ensures c.price == tx.price
  {
    CardView(
      if IsPaid(tx) then "Paid" else "Unpaid",
      if IsPaid(tx) then EndInstant(tx) else tx.expiredAt,
      tx.price,
      if IsPaid(tx) then None else Some(tx.qrUrl),
      if index == txLength - 1 then NoMargin else StandardMargin
    )
  }

  /** The store write a card performs while rendering at `now`: its end instant, or nothing. */
  function ItemPublish(tx: Tx, now: int): (w: Option<int>)
    ensures w.Some? <==> RoundSeconds(EndInstant(tx)) > RoundSeconds(now)
    ensures w.Some? ==> w.value == EndInstant(tx) && w.value > now
  {
    if Publishes(tx, now) then Some(EndInstant(tx)) else None
  }

  /**
   * "Valid until" shows paid_at plus the duration for a paid transaction and
   * expired_at itself, with no duration added, for any other.
   */
  lemma ValidUntilByStatus(tx: Tx, index: int, txLength: int)
    ensures IsPaid(tx) ==> ItemView(tx, index, txLength).validUntil == tx.paidAt + tx.durationInMonths * 2_592_000_000
    ensures !IsPaid(tx) ==> ItemView(tx, index, txLength).validUntil == tx.expiredAt
  {
    EndInstantIsAnchorPlusMonths(tx);
  }

  /** For a paid card, the instant written to the store is the very instant the card shows. */
  lemma PaidCardPublishesWhatItShows(tx: Tx, index: int, txLength: int, now: int)
    requires IsPaid(tx)
    requires ItemPublish(tx, now).Some?
    ensures ItemPublish(tx, now).value == ItemView(tx, index, txLength).validUntil
  {
  }

  /**
   * For an unpaid card the written instant is the shown deadline plus the
   * duration, so the two differ whenever the duration is not zero.
   */
  lemma UnpaidCardPublishesPastItsDeadline(tx: Tx, index: int, txLength: int, now: int)
    requires !IsPaid(tx)
    requires ItemPublish(tx, now).Some?
    ensures ItemPublish(tx, now).value == ItemView(tx, index, txLength).validUntil + tx.durationInMonths * MonthMs
  {
  }
}
