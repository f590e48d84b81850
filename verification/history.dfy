/**
 * The transaction-history panel: the fetch-on-mount effect as a transition
 * function, the choice between the loading, empty and card views, and the
 * store's subscription-end value after every card has rendered.
 */
module History {
  import opened Wrappers
  import opened Transactions
  import opened Expiry
  import opened HistoryItem

  /** How the one request for the transaction list ends. */
  datatype Outcome =
    | Response(code: int, data: seq<Tx>)  // the server answered with a status code
    | Thrown                              // the request itself failed

  /** Only a status of exactly 200 counts as success; any other answer goes to the error path. */
  predicate Succeeded(o: Outcome) {
    o.Response? && o.code == 200
  }

  /**
   * The panel's state: the store's transaction list (`None` is "not yet
   * fetched"), the local loading flag, and counters of the requests issued
   * and of the destructive toasts shown.
   */
  datatype State = State(
    transactions: Option<seq<Tx>>,
    loading: bool,
    requests: nat,
    toasts: nat
  )

  /**
   * The state at mount: whatever list the store already holds, not loading,
   * nothing issued yet. The panel therefore never opens on the loading view:
   * it opens on the empty view exactly when the store has no list or an empty one.
   */
  function Mounted(cached: Option<seq<Tx>>): (s: State)
    ensures !Render(s).LoadingView?
    ensures Render(s).EmptyView? <==> cached.None? || |cached.value| == 0
  {
    State(cached, false, 0, 0)
  }

  /** The synchronous part of the effect: unless a list is present, raise the flag and issue the request. */
  function BeginFetch(s: State): State {
    if s.transactions.Some? then s
    else s.(loading := true, requests := s.requests + 1)
  }

  /** The asynchronous part: store the list on 200, toast once otherwise, and clear the flag in every case. */
  function Settle(s: State, o: Outcome): State {
    if Succeeded(o) then s.(transactions := Some(o.data), loading := false)
    else s.(loading := false, toasts := s.toasts + 1)
  }

  /** One run of the effect, from its start to the settling of its request. */
  function Effect(s: State, o: Outcome): (s': State)
    ensures s.transactions.Some? ==> s' == s
    ensures s.transactions.None? ==> !s'.loading && s'.requests == s.requests + 1
    ensures s.transactions.None? && Succeeded(o) ==> s'.transactions == Some(o.data) && s'.toasts == s.toasts
    ensures s.transactions.None? && !Succeeded(o) ==> s'.transactions.None? && s'.toasts == s.toasts + 1
  {
    if s.transactions.Some? then s else Settle(BeginFetch(s), o)
  }

  /** The three things the panel can show. */
  datatype View = LoadingView | EmptyView | CardsView(cards: seq<CardView>)

  /** One card per transaction, in array order. */
  function Cards(txs: seq<Tx>): seq<CardView> {
    seq(|txs|, i requires 0 <= i < |txs| => ItemView(txs[i], i, |txs|))
  }

  /** Render selection: the loading flag wins, then a missing or empty list, then the cards. */
  function Render(s: State): (v: View)
    ensures v.LoadingView? <==> s.loading
    ensures v.EmptyView? <==> !s.loading && (s.transactions.None? || |s.transactions.value| == 0)
    ensures v.CardsView? ==> s.transactions.Some? && |v.cards| == |s.transactions.value| > 0
    ensures v.CardsView? ==> forall i :: 0 <= i < |v.cards| ==>
                               v.cards[i] == ItemView(s.transactions.value[i], i, |s.transactions.value|)
  {
    if s.loading then LoadingView
    else if s.transactions.None? || |s.transactions.value| == 0 then EmptyView
    else CardsView(Cards(s.transactions.value))
  }

  /** One store write: a written value replaces the store's value, no write keeps it. */
  function Overwrite(prior: Option<int>, w: Option<int>): Option<int> {
    if w.Some? then w else prior
  }

  /**
   * The store's subscription-end value after the cards for `txs` have
   * rendered in array order, starting from `prior`. Every card reads the
   * clock itself, so card `i` is judged against its own reading `nows[i]`;
   * each publishing card overwrites the value.
   */
  function PublishAll(txs: seq<Tx>, nows: seq<int>, prior: Option<int>): Option<int>
    requires |nows| == |txs|
    decreases |txs|
  {
    if |txs| == 0 then prior
    else PublishAll(txs[1..], nows[1..], Overwrite(prior, ItemPublish(txs[0], nows[0])))
  }

  /** The store's subscription-end value after the panel renders once, card `i` reading the clock as `nows[i]`. */
  function SubsDurationAfterRender(s: State, nows: seq<int>, prior: Option<int>): Option<int>
    requires Render(s).CardsView? ==> |nows| == |s.transactions.value|
  {
    match Render(s)
    case CardsView(_) => PublishAll(s.transactions.value, nows, prior)
    case _ => prior
  }

  /** Index `j` is the last transaction in `txs` whose card publishes at its own clock reading. */
  predicate LastPublisher(txs: seq<Tx>, nows: seq<int>, j: int)
    requires |nows| == |txs|
  {
    && 0 <= j < |txs|
    && Publishes(txs[j], nows[j])
    && forall k :: j < k < |txs| ==> !Publishes(txs[k], nows[k])
  }

  /** Some card of `txs` publishes at its own clock reading. */
  predicate AnyPublishes(txs: seq<Tx>, nows: seq<int>)
    requires |nows| == |txs|
  {
    exists i :: 0 <= i < |txs| && Publishes(txs[i], nows[i])
  }

  /**
   * Last writer wins: the value left in the store is the end instant of the
   * last publishing card, or `prior` when no card publishes.
   */
  lemma {:induction false} PublishAllLastWriterWins(txs: seq<Tx>, nows: seq<int>, prior: Option<int>)
    requires |nows| == |txs|
    ensures !AnyPublishes(txs, nows) ==> PublishAll(txs, nows, prior) == prior
    ensures forall j :: LastPublisher(txs, nows, j) ==> PublishAll(txs, nows, prior) == Some(EndInstant(txs[j]))
    ensures AnyPublishes(txs, nows) ==> exists j :: LastPublisher(txs, nows, j)
    decreases |txs|
  {
    if |txs| > 0 {
      var next := Overwrite(prior, ItemPublish(txs[0], nows[0]));
      var tail, tailNows := txs[1..], nows[1..];
      PublishAllLastWriterWins(tail, tailNows, next);
      if AnyPublishes(txs, nows) {
        if AnyPublishes(tail, tailNows) {
          var j' :| LastPublisher(tail, tailNows, j');
          assert LastPublisher(txs, nows, j' + 1) by {
            assert tail[j'] == txs[j' + 1] && tailNows[j'] == nows[j' + 1];
            forall k | j' + 1 < k < |txs| ensures !Publishes(txs[k], nows[k]) {
              assert tail[k - 1] == txs[k] && tailNows[k - 1] == nows[k];
            }
          }
        } else {
          assert LastPublisher(txs, nows, 0) by {
            forall k | 0 < k < |txs| ensures !Publishes(txs[k], nows[k]) {
              assert tail[k - 1] == txs[k] && tailNows[k - 1] == nows[k];
            }
          }
        }
      }
      if !AnyPublishes(txs, nows) {
        assert !Publishes(txs[0], nows[0]);
        assert !AnyPublishes(tail, tailNows) by {
          forall i | 0 <= i < |tail| ensures !Publishes(tail[i], tailNows[i]) {
            assert tail[i] == txs[i + 1] && tailNows[i] == nows[i + 1];
          }
        }
      }
      forall j | LastPublisher(txs, nows, j)
        ensures PublishAll(txs, nows, prior) == Some(EndInstant(txs[j]))
      {
        if j == 0 {
          assert !AnyPublishes(tail, tailNows) by {
            forall i | 0 <= i < |tail| ensures !Publishes(tail[i], tailNows[i]) {
              assert tail[i] == txs[i + 1] && tailNows[i] == nows[i + 1];
            }
          }
        } else {
          assert tail[j - 1] == txs[j] && tailNows[j - 1] == nows[j];
          assert LastPublisher(tail, tailNows, j - 1) by {
            forall k | j - 1 < k < |tail| ensures !Publishes(tail[k], tailNows[k]) {
              assert tail[k] == txs[k + 1] && tailNows[k] == nows[k + 1];
            }
          }
        }
      }
    }
  }

  /** Once some card publishes, the value the store held before the render no longer matters. */
  lemma {:induction false} PublishAllForgetsPrior(txs: seq<Tx>, nows: seq<int>, p: Option<int>, q: Option<int>)
    requires |nows| == |txs|
    requires AnyPublishes(txs, nows)
    ensures PublishAll(txs, nows, p) == PublishAll(txs, nows, q)
    decreases |txs|
  {
    if !Publishes(txs[0], nows[0]) {
      var i :| 0 <= i < |txs| && Publishes(txs[i], nows[i]);
      assert txs[1..][i - 1] == txs[i] && nows[1..][i - 1] == nows[i];
      PublishAllForgetsPrior(txs[1..], nows[1..], p, q);
    }
  }

  /**
   * A re-render of the same list whose cards read the same clock values
   * rewrites the same value: the writes are idempotent.
   */
  lemma PublishAllIdempotent(txs: seq<Tx>, nows: seq<int>, prior: Option<int>)
    requires |nows| == |txs|
    ensures PublishAll(txs, nows, PublishAll(txs, nows, prior)) == PublishAll(txs, nows, prior)
  {
    PublishAllLastWriterWins(txs, nows, prior);
    PublishAllLastWriterWins(txs, nows, PublishAll(txs, nows, prior));
    if AnyPublishes(txs, nows) {
      PublishAllForgetsPrior(txs, nows, prior, PublishAll(txs, nows, prior));
    }
  }

  /**
   * Two renders whose cards read different clocks can leave different values:
   * a card whose end falls in the second of its own reading does not overwrite
   * the earlier card's value.
   */
  lemma PerCardClockReadingsMatter()
    ensures PublishAll([EndsAt(5000), EndsAt(1000)], [400, 400], None) == Some(1000)
    ensures PublishAll([EndsAt(5000), EndsAt(1000)], [400, 500], None) == Some(5000)
  {
    assert [EndsAt(5000), EndsAt(1000)][1..] == [EndsAt(1000)];
    assert [400, 400][1..] == [400];
    assert [400, 500][1..] == [500];
  }

  /** A paid, zero-month transaction ending at `t`, used to exhibit the fold. */
  function EndsAt(t: int): Tx {
    Tx("", PaidStatus, 0, t, t, 0, "")
  }

  /** The loading and empty views render no card, so they leave the store's value alone. */
  lemma NoCardsNoPublish(s: State, nows: seq<int>, prior: Option<int>)
    requires !Render(s).CardsView?
    ensures SubsDurationAfterRender(s, nows, prior) == prior
  {
  }

  /** Exactly one card, the last, has no bottom margin. */
  lemma ExactlyOneCardWithoutMargin(s: State)
    requires Render(s).CardsView?
    ensures (set i | 0 <= i < |Render(s).cards| && Render(s).cards[i].margin == NoMargin) == {|Render(s).cards| - 1}
    ensures |set i | 0 <= i < |Render(s).cards| && Render(s).cards[i].margin == NoMargin| == 1
  {
    var cs := Render(s).cards;
    var zero := set i | 0 <= i < |cs| && cs[i].margin == NoMargin;
    assert |cs| - 1 in zero;
    assert zero == {|cs| - 1};
  }

  /** Before the effect has run, a panel mounted without a list shows the empty view, not the loading one. */
  lemma FirstRenderBeforeEffectIsEmpty()
    ensures Render(Mounted(None)) == EmptyView
  {
  }

  /** While the request is in flight, only the loading view is shown. */
  lemma LoadingWhileInFlight(s: State)
    requires s.transactions.None?
    ensures Render(BeginFetch(s)) == LoadingView
    ensures BeginFetch(s).requests == s.requests + 1
  {
  }

  /** A list already in the store, even an empty one, suppresses the request entirely. */
  lemma CachedListSkipsFetch(cached: seq<Tx>, o: Outcome)
    ensures Effect(Mounted(Some(cached)), o) == Mounted(Some(cached))
    ensures Effect(Mounted(Some(cached)), o).requests == 0
  {
  }

  /** After a successful fetch, a later run of the effect issues no further request. */
  lemma SuccessFetchesAtMostOnce(s: State, o: Outcome, o2: Outcome)
    requires Succeeded(o)
    ensures Effect(Effect(s, o), o2) == Effect(s, o)
    ensures Effect(Effect(s, o), o2).requests <= s.requests + 1
  {
  }

  /** A failed fetch leaves the list undefined, so the next run of the effect requests it again. */
  lemma FailureAllowsRetry(s: State, o: Outcome, o2: Outcome)
    requires s.transactions.None?
    requires !Succeeded(o)
    ensures Effect(Effect(s, o), o2).requests == s.requests + 2
    ensures Effect(s, o).toasts == s.toasts + 1
  {
  }

  /** After a fetch settles, the panel shows the empty view for an empty or missing list and one card per item otherwise. */
  lemma RenderAfterFetch(s: State, o: Outcome)
    requires s.transactions.None?
    ensures Succeeded(o) && |o.data| > 0 ==> Render(Effect(s, o)) == CardsView(Cards(o.data))
    ensures Succeeded(o) && |o.data| == 0 ==> Render(Effect(s, o)) == EmptyView
    ensures !Succeeded(o) ==> Render(Effect(s, o)) == EmptyView
  {
  }
}
