# Transaction-history panel: a verified model

This project models the decision logic of the transaction-history panel of a
subscription web client (`TxHistory` and its per-transaction card
`TxHistoryItem`). Rendering, locale formatting and HTTP are removed. What
remains is integer arithmetic over millisecond timestamps and a small state
machine:

- `Expiry`: the fixed 30-day month and the anchor choice (`paid_at` for a `"PAID"`
  transaction, `expired_at` otherwise). It also holds the subscription-end
  instant and the guard `Math.round(end/1000) > Math.round(now/1000)` that
  decides whether a card writes that instant to the shared store. `Math.round`
  of an integer millisecond count over 1000 is computed exactly as
  `(x + 500) / 1000`, and a lemma proves this equals round-half-up on the real
  quotient.
- `HistoryItem`: what each card shows. This covers the status label, the
  "valid until" instant, the payment link and the bottom margin, plus the store
  write the card performs while it renders.
- `History`: the fetch-on-mount effect as a transition function over
  `(transactions, loading, requests, toasts)`, with an abstract outcome:
  status 200, any other status, or a thrown error. It also holds render
  selection (loading, empty or one card per item) and the store's
  `subsDuration` value after all cards render in array order. Each publishing
  card overwrites that value, so the last writer wins.
- `Transactions` and `Wrappers`: the transaction record and `Option`. `None`
  stands for `undefined`.

Timestamps are the integers `getTime()` returns after parsing. Each card reads
the clock itself (`new Date()` in `TxHistoryItem`), so the clock enters as
parameters: one `now` for a single card and one reading per card, `nows[i]`,
for a whole render. The response outcome is a parameter as well. The toast and the request appear only as
counters.

## Model

| member | source | states |
|---|---|---|
| Expiry.EndInstantIsAnchorPlusMonths | src/components/Profile/TxHistory.tsx:41-48 | a month is 2,592,000,000 ms; the end instant is paid_at (PAID) or expired_at (otherwise) plus duration × month, so it is at or after the anchor when the duration is not negative |
| Expiry.EndInstantOneMoreMonth | src/components/Profile/TxHistory.tsx:41-48 | one more month of duration moves the end instant exactly thirty days later |
| Expiry.RoundSeconds | src/components/Profile/TxHistory.tsx:55-56 | the rounded second r of x satisfies r·1000 − 500 ≤ x < r·1000 + 500 (nearest second, ties up) |
| Expiry.RoundSecondsMatchesMathRound | src/components/Profile/TxHistory.tsx:55-56 | the integer rounding equals Math.round (floor of v + 0.5) applied to the real quotient x / 1000 |
| Expiry.RoundSecondsUnique | src/components/Profile/TxHistory.tsx:55-56 | the rounded second is the only integer whose window contains x |
| Expiry.RoundSecondsMonotone | src/components/Profile/TxHistory.tsx:55-56 | rounding to seconds preserves order |
| Expiry.ShouldPublishThreshold | src/components/Profile/TxHistory.tsx:54-59 | the store is written iff the end instant reaches round(now)·1000 + 500 |
| Expiry.ShouldPublishBounds | src/components/Profile/TxHistory.tsx:54-59 | an end instant at or before now never publishes; one at least 1000 ms after now always publishes |
| Expiry.LaterEndInSameSecondDoesNotPublish | src/components/Profile/TxHistory.tsx:54-59 | an end instant strictly after now but below round(now)·1000 + 500 does not publish |
| Expiry.PublishDependsOnlyOnAnchorAndDuration | src/components/Profile/TxHistory.tsx:45-58 | two transactions with the same anchor and duration publish alike, whatever their status |
| Expiry.UnpaidCanPublish | src/components/Profile/TxHistory.tsx:45-58 | a non-PAID transaction whose expired_at plus duration lies at least a second ahead publishes |
| HistoryItem.ItemView | src/components/Profile/TxHistory.tsx:61-104 | the label is "Paid" iff PAID and "Unpaid" otherwise; the pay link exists iff not PAID and points to qr_url; the margin is zero iff index = txLength − 1 |
| HistoryItem.ItemPublish | src/components/Profile/TxHistory.tsx:54-59 | a card writes a value iff the rounded end is after the rounded now, and the value written is the end instant, strictly later than now |
| HistoryItem.ValidUntilByStatus | src/components/Profile/TxHistory.tsx:79-82 | "valid until" is paid_at + duration × month for PAID and expired_at with no duration added otherwise |
| HistoryItem.PaidCardPublishesWhatItShows | src/components/Profile/TxHistory.tsx:50-58 | for a PAID card the instant written to the store is the instant the card shows |
| HistoryItem.UnpaidCardPublishesPastItsDeadline | src/components/Profile/TxHistory.tsx:45-58 | for a non-PAID card the written instant is the shown deadline plus the duration |
| History.Mounted | src/components/Profile/TxHistory.tsx:108-111 | the loading flag starts false, so the panel never opens on the loading view; it opens on the empty view exactly when the store holds no list or an empty one |
| History.Effect | src/components/Profile/TxHistory.tsx:116-145 | a defined list (even empty) leaves the state unchanged; otherwise exactly one request, loading ends false, 200 stores the data with no toast, anything else leaves the list undefined and adds one toast |
| History.Render | src/components/Profile/TxHistory.tsx:147-175 | loading view iff loading; empty view iff not loading and the list is undefined or empty; otherwise one card per item in order |
| History.PublishAllLastWriterWins | src/components/Profile/TxHistory.tsx:44-59 | after the cards render in array order, each judged against its own clock reading, the store holds the end instant of the last publishing card, or its prior value if none publishes; whenever some card publishes, such a last publishing card exists |
| History.PublishAllForgetsPrior | src/components/Profile/TxHistory.tsx:44-59 | for any per-card clock readings under which some card publishes, the store's earlier value has no effect on the result |
| History.PublishAllIdempotent | src/components/Profile/TxHistory.tsx:44-59 | a re-render of the same list whose cards read the same clock values leaves the same value |
| History.PerCardClockReadingsMatter | src/components/Profile/TxHistory.tsx:44-59 | with ends 5000 and 1000 ms, one shared reading of 400 ms leaves 1000, while readings of 400 and 500 ms leave 5000, because the second card does not write |
| History.NoCardsNoPublish | src/components/Profile/TxHistory.tsx:147-161 | the loading and empty views write nothing to the store |
| History.ExactlyOneCardWithoutMargin | src/components/Profile/TxHistory.tsx:63 | among the rendered cards exactly one, the last, has zero bottom margin |
| History.FirstRenderBeforeEffectIsEmpty | src/components/Profile/TxHistory.tsx:111 | the loading flag starts false, so the first render of a panel without a list shows the empty view |
| History.LoadingWhileInFlight | src/components/Profile/TxHistory.tsx:117-118 | once the request is issued and until it settles, only the loading view is shown |
| History.CachedListSkipsFetch | src/components/Profile/TxHistory.tsx:117 | mounting with a list in the store, even an empty one, issues no request and changes nothing |
| History.SuccessFetchesAtMostOnce | src/components/Profile/TxHistory.tsx:116-128 | after a 200 response a later run of the effect does nothing |
| History.FailureAllowsRetry | src/components/Profile/TxHistory.tsx:129-143 | a failed fetch shows one toast and leaves the list undefined, so the next run issues a second request |
| History.RenderAfterFetch | src/components/Profile/TxHistory.tsx:127-175 | after settling, a 200 with items renders their cards; a 200 with no items, or a failure, renders the empty view |

## Left out

- Date formatting, time-zone conversion and price formatting (`toLocaleDateString`,
  `toZonedTime`, `toISOString`, `Intl.NumberFormat`) are locale and zone library
  behaviour. The model works with the instant before formatting, so the
  published `subsDuration` is the end instant itself, not its display string.
  The code passes the zone-shifted instant through `toISOString` and then formats
  it in the runtime's own zone. That double conversion is not modelled.
- Parsing of the ISO strings with `new Date(...)` is not modelled: timestamps are
  already-parsed integer milliseconds. JavaScript's double-precision arithmetic
  and the Date range of ±8.64e15 ms are not modelled either. An end instant
  outside that range is an invalid date: `toISOString()` at line 51 throws a
  RangeError, so the card's render throws, and the guard at line 55 compares
  NaN, so nothing would be published. The model treats every end instant as a
  valid date.
- The non-null `user` and `timeZone` assumptions (the `!` at lines 51 and 124)
  are not modelled. The zone only feeds formatting. A null `user` at line 124
  throws inside the `try`, so the code shows one toast without sending a
  request. `BeginFetch` always counts a request, so `requests` is exact only
  for a logged-in user.
- The HTTP call, its bearer header, `console.error`, toast presentation and the
  React/store wiring are I/O. They are reduced to the `Outcome` datatype and the
  `requests` and `toasts` counters.
- The effect's dependency-driven re-runs are not modelled. `Effect` treats
  issuing the request and settling it as one step, and the caller decides when
  it happens, so two runs with requests in flight at once are not modelled. In
  the code, a change of `user` (a dependency at line 145) while a request is
  pending re-runs the effect with `transactions` still undefined. That sends a
  second request, and the first run's `finally` at line 142 clears `loading`
  while the second request is still pending.
- LoadingWhileInFlight: holds only for runs of the effect that do not overlap
  (see the line above).
- SuccessFetchesAtMostOnce: holds only for runs of the effect that do not
  overlap; a run started before the first one settles sends its own request.
- Badge colours, the "Premium" badge, the link's `target`/`rel` attributes and the
  other markup are cosmetic. They follow the same PAID test as the label.
- src/routes.tsx is static router configuration with lazy imports. It has no
  logic of its own.
