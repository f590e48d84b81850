/**
 * Subscription-end arithmetic and the guard that decides whether a card
 * publishes its end instant to the shared store.
 */
module Expiry {
  import opened Transactions

  /** A month is a fixed thirty days, written in milliseconds. */
  const SecondsInMonth: int := 60 * 60 * 24 * 30
  const MonthMs: int := SecondsInMonth * 1000

  /** The instant the subscription is counted from: paid_at when paid, expired_at otherwise. */
  function Anchor(tx: Tx): int {
    if IsPaid(tx) then tx.paidAt else tx.expiredAt
  }

  /** The subscription-end instant: the anchor plus the duration in fixed-width months. */
  function EndInstant(tx: Tx): int {
    Anchor(tx) + tx.durationInMonths * MonthMs
  }

  /** `Math.round` on an ideal real: round half up, towards positive infinity. */
  function MathRound(v: real): int {
    (v + 0.5).Floor
  }

  /**
   * `Math.round(x / 1000)` on an integer millisecond count, computed without
   * reals: the whole second nearest to `x`, ties rounding up.
   */
  function RoundSeconds(x: int): (r: int)
    ensures r * 1000 - 500 <= x < r * 1000 + 500
  {
    (x + 500) / 1000
  }

  /** The publish guard: the end instant, rounded to seconds, is strictly after now, rounded to seconds. */
  predicate ShouldPublish(end: int, now: int) {
    RoundSeconds(end) > RoundSeconds(now)
  }

  /** Whether a card for `tx` rendered at `now` writes its end instant to the store. */
  predicate Publishes(tx: Tx, now: int) {
    ShouldPublish(EndInstant(tx), now)
  }

  /** A month is 2,592,000,000 ms, and the end instant is exactly that many per month past the anchor. */
  lemma EndInstantIsAnchorPlusMonths(tx: Tx)
    ensures MonthMs == 2_592_000_000
    ensures IsPaid(tx) ==> EndInstant(tx) == tx.paidAt + tx.durationInMonths * 2_592_000_000
    ensures !IsPaid(tx) ==> EndInstant(tx) == tx.expiredAt + tx.durationInMonths * 2_592_000_000
    ensures tx.durationInMonths >= 0 ==> EndInstant(tx) >= Anchor(tx)
    ensures tx.durationInMonths > 0 ==> EndInstant(tx) > Anchor(tx)
  {
  }

  /** One more month moves the end instant exactly thirty days later, whatever the status. */
  lemma EndInstantOneMoreMonth(tx: Tx)
    ensures EndInstant(tx.(durationInMonths := tx.durationInMonths + 1)) == EndInstant(tx) + 30 * 24 * 3600 * 1000
  {
  }

  /** The integer rounding agrees with `Math.round` applied to the real quotient `x / 1000`. */
  lemma RoundSecondsMatchesMathRound(x: int)
    ensures RoundSeconds(x) == MathRound(x as real / 1000.0)
  {
    var r := RoundSeconds(x);
    var v := x as real / 1000.0 + 0.5;
    assert v == (x + 500) as real / 1000.0;
    assert r as real <= v by {
      assert (r * 1000) as real <= (x + 500) as real;
    }
    assert v < (r + 1) as real by {
      assert (x + 500) as real < ((r + 1) * 1000) as real;
    }
  }

  /** The rounding is the one integer whose half-open second window contains `x`. */
  lemma RoundSecondsUnique(x: int, k: int)
    requires k * 1000 - 500 <= x < k * 1000 + 500
    ensures RoundSeconds(x) == k
  {
  }

  /** Rounding to seconds never reverses the order of two instants. */
  lemma RoundSecondsMonotone(x: int, y: int)
    requires x <= y
    ensures RoundSeconds(x) <= RoundSeconds(y)
  {
  }

  /**
   * The guard holds exactly when the end instant reaches the half-second
   * boundary after now's rounded second.
   */
  lemma ShouldPublishThreshold(end: int, now: int)
    ensures ShouldPublish(end, now) <==> end >= RoundSeconds(now) * 1000 + 500
  {
  }

  /** An end instant at or before now never publishes; one a full second later always does. */
  lemma ShouldPublishBounds(end: int, now: int)
    ensures end <= now ==> !ShouldPublish(end, now)
    ensures end >= now + 1000 ==> ShouldPublish(end, now)
  {
    if end <= now {
      RoundSecondsMonotone(end, now);
    }
  }

  /**
   * An end instant strictly after now still does not publish while it stays
   * below the half-second boundary that closes now's rounded second.
   */
  lemma LaterEndInSameSecondDoesNotPublish(end: int, now: int)
    requires now < end < RoundSeconds(now) * 1000 + 500
    ensures !ShouldPublish(end, now)
  {
  }

  /** The guard sees the status only through the anchor it selects. */
  lemma PublishDependsOnlyOnAnchorAndDuration(a: Tx, b: Tx, now: int)
    requires Anchor(a) == Anchor(b) && a.durationInMonths == b.durationInMonths
    ensures Publishes(a, now) <==> Publishes(b, now)
  {
  }

  /** An unpaid transaction whose expired_at plus its duration lies a second or more ahead still publishes. */
  lemma UnpaidCanPublish(tx: Tx, now: int)
    requires !IsPaid(tx)
    requires tx.expiredAt + tx.durationInMonths * MonthMs >= now + 1000
    ensures Publishes(tx, now)
  {
    ShouldPublishBounds(EndInstant(tx), now);
  }
}
